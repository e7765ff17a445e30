/** The workload's syscall filter: a compiler from an architecture table and a policy to
    classic BPF, the machine that runs the result, and the decision the two must agree on. */
module Seccomp {

  import opened Wrappers
  import opened Text
  import opened Maths

  // ---------------------------------------------------------------------------------------------
  // The machine: the five classic-BPF opcodes the filter uses.
  // ---------------------------------------------------------------------------------------------

  const LD_W_ABS: nat := 0x20
  const JEQ_K: nat := 0x15
  const JGE_K: nat := 0x35
  const JSET_K: nat := 0x45
  const RET_K: nat := 0x06

  const OFF_NR: Word := 0
  const OFF_ARCH: Word := 4
  const OFF_ARGS0: Word := 16

  /** An unsigned 32-bit word; arithmetic that can wrap says so. */
  type Word = w: nat | w < 0x1_0000_0000

  const MAX_WORD: Word := 0xFFFF_FFFF

  /** Whether bit i of x is on. */
  predicate HasBit(x: nat, i: nat) {
    if i == 0 then x % 2 == 1 else HasBit(x / 2, i - 1)
  }

  /** Whether x & y is not zero, decided bit by bit. */
  predicate Meets(x: nat, y: nat) {
    x != 0 && y != 0 && ((x % 2 == 1 && y % 2 == 1) || Meets(x / 2, y / 2))
  }

  /** A jump displacement is one unsigned byte, counted from the next instruction. */
  type Displacement = d: nat | d < 256

  datatype Instr = Instr(code: nat, jt: Displacement, jf: Displacement, k: Word)

  /** The fields of struct seccomp_data this filter can load; an argument is two words. */
  datatype SeccompData = SeccompData(nr: Word, arch: Word, arg0Lo: Word, arg0Hi: Word)

  function Load(data: SeccompData, offset: Word): Option<Word> {
    if offset == OFF_NR then Some(data.nr)
    else if offset == OFF_ARCH then Some(data.arch)
    else if offset == OFF_ARGS0 then Some(data.arg0Lo)
    else if offset == 20 then Some(data.arg0Hi)
    else None
  }

  /** Runs the program from pc. None is a program the kernel would refuse: it runs off its end,
      loads outside the structure or meets an unknown opcode. */
  function Run(f: seq<Instr>, data: SeccompData, pc: nat, acc: Word): Option<Word>
    decreases |f| - pc
  {
    if pc >= |f| then None
    else
      var i := f[pc];
      if i.code == RET_K then Some(i.k)
      else if i.code == LD_W_ABS then
        var word := Load(data, i.k);
        if word.None? then None else Run(f, data, pc + 1, word.value)
      else if i.code == JEQ_K then
        Run(f, data, pc + 1 + (if acc == i.k then i.jt else i.jf), acc)
      else if i.code == JGE_K then
        Run(f, data, pc + 1 + (if acc >= i.k then i.jt else i.jf), acc)
      else if i.code == JSET_K then
        Run(f, data, pc + 1 + (if Meets(acc, i.k) then i.jt else i.jf), acc)
      else None
  }

  function Execute(f: seq<Instr>, data: SeccompData): Option<Word> {
    Run(f, data, 0, 0)
  }

  // ---------------------------------------------------------------------------------------------
  // The documented decision.
  // ---------------------------------------------------------------------------------------------

  /** One architecture's inputs: its audit value, syscall numbers, denylist and name table. */
  datatype ArchFilter = ArchFilter(auditArch: Word, clone: Word, clone3: Word, denied: seq<Word>,
                                   names: map<string, Word>, maxNr: Word)

  datatype Action = Allow | Eperm | Enosys

  const RET_ALLOW: Word := 0x7fff_0000
  const RET_ERRNO: Word := 0x0005_0000
  const ERRNO_EPERM: Word := 1
  const ERRNO_ENOSYS: Word := 38

  function ActionWord(action: Action): Word {
    match action
    case Allow => RET_ALLOW
    case Eperm => RET_ERRNO + ERRNO_EPERM
    case Enosys => RET_ERRNO + ERRNO_ENOSYS
  }

  const CLONE_NEWNS: Word := 0x0002_0000
  const CLONE_NEWCGROUP: Word := 0x0200_0000
  const CLONE_NEWUTS: Word := 0x0400_0000
  const CLONE_NEWIPC: Word := 0x0800_0000
  const CLONE_NEWUSER: Word := 0x1000_0000
  const CLONE_NEWPID: Word := 0x2000_0000
  const CLONE_NEWNET: Word := 0x4000_0000
  const CLONE_NEW_NAMESPACES: Word :=
    CLONE_NEWNS + CLONE_NEWCGROUP + CLONE_NEWUTS + CLONE_NEWIPC + CLONE_NEWUSER + CLONE_NEWPID + CLONE_NEWNET

  /** The bit numbers of the seven CLONE_NEW* flags. */
  const NAMESPACE_BITS: set<nat> := {17, 25, 26, 27, 28, 29, 30}

  /** A clone asks for a namespace when any single CLONE_NEW* flag is on. */
  predicate RequestsNamespace(flags: Word) {
    exists i :: i in NAMESPACE_BITS && HasBit(flags, i)
  }

  /** What the layout comment documents, with no mention of instructions or jumps. */
  function Decision(a: ArchFilter, denied: set<Word>, d: SeccompData): Action {
    if d.arch != a.auditArch then Eperm
    else if d.nr > a.maxNr then Eperm
    else if d.nr == a.clone then (if RequestsNamespace(d.arg0Lo) then Eperm else Allow)
    else if d.nr == a.clone3 then Enosys
    else if d.nr in denied then Eperm
    else Allow
  }

  /** The calls the filter decides structurally: no denylist entry is consulted for them. */
  predicate Structural(a: ArchFilter, d: SeccompData) {
    d.arch != a.auditArch || d.nr > a.maxNr || d.nr == a.clone || d.nr == a.clone3
  }

  function Elements(s: seq<Word>): set<Word> {
    set x | x in s
  }

  // ---------------------------------------------------------------------------------------------
  // Policy resolution.
  // ---------------------------------------------------------------------------------------------

  datatype Policy = Policy(deny: seq<string>, allow: seq<string>)

  datatype PolicyError = UnknownArchitecture | EmptyName | StructuralName | UnknownSyscall | TooManyDenied

  /** strconv.ParseUint(s, 10, 32): digits only, at least one, and within 32 bits. */
  function ParseUint32(s: string): Option<Word> {
    if s != [] && (forall c :: c in s ==> IsDigit(c)) && DecimalValue(s) < 0x1_0000_0000
    then Some(DecimalValue(s))
    else None
  }

  function SyscallNumber(a: ArchFilter, entry: string): Result<Word, PolicyError> {
    var name := TrimSpace(entry);
    if name == "" then Failure(EmptyName)
    else if name == "clone" || name == "clone3" then Failure(StructuralName)
    else
      var number := ParseUint32(name);
      if number.Some? then Success(number.value)
      else if name in a.names then Success(a.names[name])
      else Failure(UnknownSyscall)
  }

  /** A number written in decimal, padded in any way, names that syscall on every architecture,
      whatever the name table says. */
  lemma NumberResolves(a: ArchFilter, before: string, n: Word, after: string)
    requires forall c :: c in before + after ==> IsSpace(c)
    ensures SyscallNumber(a, before + Decimal(n) + after) == Success(n)
  {
    var s := Decimal(n);
    assert s[0] in s && s[|s| - 1] in s;
    assert forall c :: c in before ==> c in before + after;
    assert forall c :: c in after ==> c in before + after;
    assert before + s + after == before + (s + after);
    TrimLeftDropsPadding(before, s + after);
    TrimRightDropsPadding(s, after);
    assert TrimSpace(before + s + after) == s;
    assert "clone"[0] in "clone" && "clone3"[0] in "clone3";
    assert s != "clone" && s != "clone3";
  }

  predicate Resolves(a: ArchFilter, entry: string) {
    SyscallNumber(a, entry).Success?
  }

  /** The numbers a list of entries resolves to. */
  function Numbers(a: ArchFilter, entries: seq<string>): set<Word> {
    set e | e in entries && Resolves(a, e) :: SyscallNumber(a, e).value
  }

  /** The denylist a policy means: the built-in list and Deny, with Allow having the last word. */
  function PolicyDenied(a: ArchFilter, p: Policy): set<Word> {
    Elements(a.denied) + Numbers(a, p.deny) - Numbers(a, p.allow)
  }

  predicate IsEmpty(policy: Option<Policy>) {
    policy.None? || (policy.value.deny == [] && policy.value.allow == [])
  }

  /** The set the finished filter denies by number. */
  function EffectiveDenied(a: ArchFilter, policy: Option<Policy>): set<Word> {
    if IsEmpty(policy) then Elements(a.denied) else PolicyDenied(a, policy.value)
  }

  predicate StrictlySorted(s: seq<Word>) {
    forall i, j :: 0 <= i < j < |s| ==> s[i] < s[j]
  }

  const MAX_DENIED: nat := 250

  /** A policy is accepted exactly when it is empty, or every entry resolves and the list fits. */
  predicate Accepted(a: ArchFilter, policy: Option<Policy>) {
    IsEmpty(policy)
    || (&& (forall e :: e in policy.value.deny + policy.value.allow ==> Resolves(a, e))
        && |PolicyDenied(a, policy.value)| <= MAX_DENIED)
  }

  method Minimum(s: set<Word>) returns (m: Word)
    requires s != {}
    ensures m in s && forall x :: x in s ==> m <= x
  {
    m :| m in s;
    var rest := s - {m};
    while rest != {}
      invariant rest <= s && m in s
      invariant forall x :: x in s && x !in rest ==> m <= x
    {
      var x :| x in rest;
      if x < m { m := x; }
      rest := rest - {x};
    }
  }

  /** slices.Sorted(maps.Keys(set)). */
  method SortedKeys(s: set<Word>) returns (r: seq<Word>)
    ensures StrictlySorted(r) && Elements(r) == s && |r| == |s|
  {
    r := [];
    var rest := s;
    while rest != {}
      invariant rest <= s && StrictlySorted(r) && |r| + |rest| == |s|
      invariant forall x :: x in r <==> x in s && x !in rest
      invariant forall i, y :: 0 <= i < |r| && y in rest ==> r[i] < y
    {
      var m := Minimum(rest);
      r := r + [m];
      rest := rest - {m};
    }
  }

  method AddDenied(a: ArchFilter, builtIn: set<Word>, deny: seq<string>) returns (r: Result<set<Word>, PolicyError>)
    ensures r.Success? <==> forall e :: e in deny ==> Resolves(a, e)
    ensures r.Success? ==> r.value == builtIn + Numbers(a, deny)
  {
    var denied := builtIn;
    for i := 0 to |deny|
      invariant forall j :: 0 <= j < i ==> Resolves(a, deny[j])
      invariant denied == builtIn + Numbers(a, deny[..i])
    {
      var nr := SyscallNumber(a, deny[i]);
      if nr.Failure? {
        assert deny[i] in deny && !Resolves(a, deny[i]);
        return Failure(nr.error);
      }
      NumbersExtend(a, deny, i);
      denied := denied + {nr.value};
    }
    assert deny[..|deny|] == deny;
    r := Success(denied);
  }

  method DropAllowed(a: ArchFilter, before: set<Word>, allow: seq<string>) returns (r: Result<set<Word>, PolicyError>)
    ensures r.Success? <==> forall e :: e in allow ==> Resolves(a, e)
    ensures r.Success? ==> r.value == before - Numbers(a, allow)
  {
    var denied := before;
    for i := 0 to |allow|
      invariant forall j :: 0 <= j < i ==> Resolves(a, allow[j])
      invariant denied == before - Numbers(a, allow[..i])
    {
      var nr := SyscallNumber(a, allow[i]);
      if nr.Failure? {
        assert allow[i] in allow && !Resolves(a, allow[i]);
        return Failure(nr.error);
      }
      NumbersExtend(a, allow, i);
      denied := denied - {nr.value};
    }
    assert allow[..|allow|] == allow;
    r := Success(denied);
  }

  /** An empty policy returns the built-in list unchanged and unchecked; any other resolves Deny,
      then Allow, and refuses a list a jump could not reach over. */
  method ApplyPolicy(policy: Option<Policy>, a: ArchFilter) returns (r: Result<seq<Word>, PolicyError>)
    ensures r.Success? <==> Accepted(a, policy)
    ensures r.Success? ==> Elements(r.value) == EffectiveDenied(a, policy)
    ensures r.Success? && IsEmpty(policy) ==> r.value == a.denied
    ensures r.Success? && !IsEmpty(policy) ==> StrictlySorted(r.value) && |r.value| <= MAX_DENIED
  {
    if IsEmpty(policy) {
      return Success(a.denied);
    }
    var p := policy.value;
    var added := AddDenied(a, Elements(a.denied), p.deny);
    if added.Failure? {
      return Failure(added.error);
    }
    var dropped := DropAllowed(a, added.value, p.allow);
    if dropped.Failure? {
      return Failure(dropped.error);
    }
    if |dropped.value| > MAX_DENIED {
      return Failure(TooManyDenied);
    }
    var sorted := SortedKeys(dropped.value);
    r := Success(sorted);
  }

  lemma NumbersExtend(a: ArchFilter, entries: seq<string>, i: nat)
    requires i < |entries| && Resolves(a, entries[i])
    ensures Numbers(a, entries[..i + 1]) == Numbers(a, entries[..i]) + {SyscallNumber(a, entries[i]).value}
  {
  }

  // ---------------------------------------------------------------------------------------------
  // The assembler.
  // ---------------------------------------------------------------------------------------------

  /** The displacement from one instruction to another; None is the source's panic. */
  function JumpTo(from: int, to: int): (r: Option<Displacement>)
    ensures r.Some? <==> from < to <= from + 256
    ensures r.Some? ==> from + 1 + r.value == to
  {
    var d := to - from - 1;
    if d < 0 || d > 255 then None else Some(d)
  }

  /** Unsigned 32-bit increment. */
  function Successor(w: Word): Word {
    (w + 1) % 0x1_0000_0000
  }

  function Statement(code: nat, k: Word): Instr {
    Instr(code, 0, 0, k)
  }

  function PatchTrue(f: seq<Instr>, from: nat, to: nat): seq<Instr>
    requires from < |f| && JumpTo(from, to).Some?
  {
    f[from := f[from].(jt := JumpTo(from, to).value)]
  }

  function PatchFalse(f: seq<Instr>, from: nat, to: nat): seq<Instr>
    requires from < |f| && JumpTo(from, to).Some?
  {
    f[from := f[from].(jf := JumpTo(from, to).value)]
  }

  /** The finished listing, instruction by instruction. */
  ghost predicate Listing(a: ArchFilter, f: seq<Instr>) {
    var n := |a.denied|;
    && |f| == n + 13 && n <= MAX_DENIED
    && f[0] == Statement(LD_W_ABS, OFF_ARCH)
    && f[1] == Instr(JEQ_K, 0, n + 5, a.auditArch)
    && f[2] == Statement(LD_W_ABS, OFF_NR)
    && f[3] == Instr(JGE_K, n + 3, 0, Successor(a.maxNr))
    && f[4] == Instr(JEQ_K, n + 4, 0, a.clone)
    && f[5] == Instr(JEQ_K, n + 2, 0, a.clone3)
    && (forall i :: 0 <= i < n ==> f[6 + i] == Instr(JEQ_K, n - i, 0, a.denied[i]))
    && f[n + 6] == Statement(RET_K, ActionWord(Allow))
    && f[n + 7] == Statement(RET_K, ActionWord(Eperm))
    && f[n + 8] == Statement(RET_K, ActionWord(Enosys))
    && f[n + 9] == Statement(LD_W_ABS, OFF_ARGS0)
    && f[n + 10] == Instr(JSET_K, 1, 0, CLONE_NEW_NAMESPACES)
    && f[n + 11] == Statement(RET_K, ActionWord(Allow))
    && f[n + 12] == Statement(RET_K, ActionWord(Eperm))
  }

  /** The listing before any jump is patched. */
  ghost predicate Unpatched(a: ArchFilter, f: seq<Instr>) {
    var n := |a.denied|;
    && |f| == n + 13
    && f[0] == Statement(LD_W_ABS, OFF_ARCH)
    && f[1] == Statement(JEQ_K, a.auditArch)
    && f[2] == Statement(LD_W_ABS, OFF_NR)
    && f[3] == Statement(JGE_K, Successor(a.maxNr))
    && f[4] == Statement(JEQ_K, a.clone)
    && f[5] == Statement(JEQ_K, a.clone3)
    && (forall i :: 0 <= i < n ==> f[6 + i] == Statement(JEQ_K, a.denied[i]))
    && f[n + 6] == Statement(RET_K, ActionWord(Allow))
    && f[n + 7] == Statement(RET_K, ActionWord(Eperm))
    && f[n + 8] == Statement(RET_K, ActionWord(Enosys))
    && f[n + 9] == Statement(LD_W_ABS, OFF_ARGS0)
    && f[n + 10] == Statement(JSET_K, CLONE_NEW_NAMESPACES)
    && f[n + 11] == Statement(RET_K, ActionWord(Allow))
    && f[n + 12] == Statement(RET_K, ActionWord(Eperm))
  }

  /** Where the assembler put each jump and each target. */
  datatype Labels = Labels(arch: nat, ceil: nat, clone: nat, clone3: nat, denied: seq<nat>, deny: nat,
                           enosys: nat, cloneCheck: nat, cloneFlag: nat, cloneDeny: nat)

  ghost predicate LabelsOf(a: ArchFilter, l: Labels) {
    var n := |a.denied|;
    && l == Labels(1, 3, 4, 5, l.denied, n + 7, n + 8, n + 9, n + 10, n + 12)
    && |l.denied| == n && forall i :: 0 <= i < n ==> l.denied[i] == 6 + i
  }

  method EmitDenied(f: seq<Instr>, denied: seq<Word>) returns (g: seq<Instr>, at: seq<nat>)
    ensures |g| == |f| + |denied| && f <= g && |at| == |denied|
    ensures forall i :: 0 <= i < |denied| ==> at[i] == |f| + i && g[|f| + i] == Statement(JEQ_K, denied[i])
  {
    g, at := f, [];
    for i := 0 to |denied|
      invariant |g| == |f| + i && f <= g && |at| == i
      invariant forall j :: 0 <= j < i ==> at[j] == |f| + j && g[|f| + j] == Statement(JEQ_K, denied[j])
    {
      at := at + [|g|];
      g := g + [Statement(JEQ_K, denied[i])];
    }
  }

  /** Appends every instruction, remembering the indices the patching needs. */
  method Emit(a: ArchFilter) returns (f: seq<Instr>, l: Labels)
    ensures Unpatched(a, f) && LabelsOf(a, l)
  {
    f := [Statement(LD_W_ABS, OFF_ARCH)];
    var arch := |f|;
    f := f + [Statement(JEQ_K, a.auditArch)];
    f := f + [Statement(LD_W_ABS, OFF_NR)];
    var ceil := |f|;
    f := f + [Statement(JGE_K, Successor(a.maxNr))];
    var clone := |f|;
    f := f + [Statement(JEQ_K, a.clone)];
    var clone3 := |f|;
    f := f + [Statement(JEQ_K, a.clone3)];
    var head := f;
    var denied: seq<nat>;
    f, denied := EmitDenied(f, a.denied);
    f := f + [Statement(RET_K, RET_ALLOW)];
    var deny := |f|;
    f := f + [Statement(RET_K, RET_ERRNO + ERRNO_EPERM)];
    var enosys := |f|;
    f := f + [Statement(RET_K, RET_ERRNO + ERRNO_ENOSYS)];
    var cloneCheck := |f|;
    f := f + [Statement(LD_W_ABS, OFF_ARGS0)];
    var cloneFlag := |f|;
    f := f + [Statement(JSET_K, CLONE_NEW_NAMESPACES)];
    f := f + [Statement(RET_K, RET_ALLOW)];
    var cloneDeny := |f|;
    f := f + [Statement(RET_K, RET_ERRNO + ERRNO_EPERM)];
    l := Labels(arch, ceil, clone, clone3, denied, deny, enosys, cloneCheck, cloneFlag, cloneDeny);
    assert head <= f;
    assert f[..6] == head;
  }

  method PatchDenied(f: seq<Instr>, at: seq<nat>, deny: nat) returns (g: seq<Instr>)
    requires deny < |f| && |at| + 7 == deny && |at| <= 255
    requires forall i :: 0 <= i < |at| ==> at[i] == 6 + i
    ensures |g| == |f|
    ensures forall j :: 0 <= j < |f| && !(6 <= j < 6 + |at|) ==> g[j] == f[j]
    ensures forall j :: 6 <= j < deny - 1 ==> g[j] == f[j].(jt := deny - j - 1)
  {
    g := f;
    for i := 0 to |at|
      invariant |g| == |f|
      invariant forall j :: 0 <= j < |f| && !(6 <= j < 6 + i) ==> g[j] == f[j]
      invariant forall j :: 6 <= j < 6 + i ==> g[j] == f[j].(jt := deny - j - 1)
    {
      g := PatchTrue(g, at[i], deny);
    }
  }

  /** Patches every jump. The architecture mismatch is patched first and is the longest jump, so
      it is the only one that can overflow its byte: the others are proved to fit once it does.
      None is that panic, and it happens exactly when the denylist is longer than 250 entries. */
  method Assemble(a: ArchFilter) returns (r: Option<seq<Instr>>)
    ensures r.Some? <==> |a.denied| <= MAX_DENIED
    ensures r.Some? ==> Listing(a, r.value)
  {
    var f, l := Emit(a);
    if JumpTo(l.arch, l.deny).None? {
      return None;
    }
    f := PatchFalse(f, l.arch, l.deny);
    f := PatchTrue(f, l.ceil, l.deny);
    f := PatchTrue(f, l.clone, l.cloneCheck);
    f := PatchTrue(f, l.clone3, l.enosys);
    f := PatchDenied(f, l.denied, l.deny);
    f := PatchTrue(f, l.cloneFlag, l.cloneDeny);
    r := Some(f);
  }

  /** From the i-th denylist comparison on, the program denies exactly the remaining entries. */
  lemma {:induction false} ScanDenylist(a: ArchFilter, f: seq<Instr>, d: SeccompData, i: nat)
    requires Listing(a, f) && i <= |a.denied|
    ensures Run(f, d, 6 + i, d.nr) == Some(ActionWord(if d.nr in a.denied[i..] then Eperm else Allow))
    decreases |a.denied| - i
  {
    if i < |a.denied| {
      assert f[6 + i] == Instr(JEQ_K, |a.denied| - i, 0, a.denied[i]);
      assert a.denied[i..] == [a.denied[i]] + a.denied[i + 1..];
      ScanDenylist(a, f, d, i + 1);
    }
  }

  ghost predicate ShareBit(x: nat, y: nat) {
    exists i: nat :: HasBit(x, i) && HasBit(y, i)
  }

  lemma CommonBit(x: nat, y: nat, i: nat)
    requires HasBit(x, i) && HasBit(y, i)
    ensures ShareBit(x, y)
  {
  }

  lemma {:induction false} MeetsAtSomeBit(x: nat, y: nat)
    ensures Meets(x, y) <==> ShareBit(x, y)
  {
    if x == 0 || y == 0 {
      forall i: nat ensures !(HasBit(x, i) && HasBit(y, i)) {
        ZeroHasNoBit(i);
      }
    } else {
      MeetsAtSomeBit(x / 2, y / 2);
      if x % 2 == 1 && y % 2 == 1 {
        assert Meets(x, y);
        CommonBit(x, y, 0);
      } else {
        if ShareBit(x / 2, y / 2) {
          var i: nat :| HasBit(x / 2, i) && HasBit(y / 2, i);
          CommonBit(x, y, i + 1);
        }
        if ShareBit(x, y) {
          var i: nat :| HasBit(x, i) && HasBit(y, i);
          CommonBit(x / 2, y / 2, i - 1);
        }
      }
    }
  }

  lemma {:induction false} ZeroHasNoBit(i: nat)
    ensures !HasBit(0, i)
  {
    if i > 0 { ZeroHasNoBit(i - 1); }
  }

  lemma {:induction false} ShiftMovesBits(y: nat, k: nat, i: nat)
    ensures HasBit(y * Pow2(k), i) <==> i >= k && HasBit(y, i - k)
  {
    if k > 0 {
      var half := y * Pow2(k - 1);
      assert y * Pow2(k) == 2 * half;
      if i > 0 {
        ShiftMovesBits(y, k - 1, i - 1);
      }
    }
  }

  lemma {:induction false} OnesBits(k: nat, i: nat)
    ensures HasBit(Pow2(k) - 1, i) <==> i < k
  {
    if k == 0 {
      ZeroHasNoBit(i);
    } else if i > 0 {
      assert (Pow2(k) - 1) / 2 == Pow2(k - 1) - 1;
      OnesBits(k - 1, i - 1);
    }
  }

  /** The mask is one bit at 17 and six at 25: 2^17 * (1 + 2 * (2^7 * (2^6 - 1))). */
  lemma MaskBits(i: nat)
    ensures HasBit(CLONE_NEW_NAMESPACES, i) <==> i in NAMESPACE_BITS
  {
    var body := 0x3F01;
    assert Pow2(17) == 0x2_0000 && Pow2(7) == 0x80 && Pow2(6) == 0x40;
    assert CLONE_NEW_NAMESPACES == body * Pow2(17);
    ShiftMovesBits(body, 17, i);
    if i > 17 {
      assert HasBit(body, i - 17) == HasBit(body / 2, i - 18);
      assert body / 2 == 0x3F * Pow2(7);
      ShiftMovesBits(0x3F, 7, i - 18);
      if i >= 25 {
        OnesBits(6, i - 25);
      }
    }
  }

  lemma MaskMeetsEveryFlag(flags: Word)
    ensures Meets(flags, CLONE_NEW_NAMESPACES) <==> RequestsNamespace(flags)
  {
    MeetsAtSomeBit(flags, CLONE_NEW_NAMESPACES);
    if ShareBit(flags, CLONE_NEW_NAMESPACES) {
      var i: nat :| HasBit(flags, i) && HasBit(CLONE_NEW_NAMESPACES, i);
      MaskBits(i);
    }
    if RequestsNamespace(flags) {
      var i :| i in NAMESPACE_BITS && HasBit(flags, i);
      MaskBits(i);
      CommonBit(flags, CLONE_NEW_NAMESPACES, i);
    }
  }

  lemma RunCloneCheck(a: ArchFilter, f: seq<Instr>, d: SeccompData)
    requires Listing(a, f)
    ensures Run(f, d, |a.denied| + 9, d.nr)
         == Some(ActionWord(if RequestsNamespace(d.arg0Lo) then Eperm else Allow))
  {
    MaskMeetsEveryFlag(d.arg0Lo);
    var n := |a.denied|;
    assert Run(f, d, n + 9, d.nr) == Run(f, d, n + 10, d.arg0Lo);
    assert Run(f, d, n + 10, d.arg0Lo) == if RequestsNamespace(d.arg0Lo)
                                          then Run(f, d, n + 12, d.arg0Lo) else Run(f, d, n + 11, d.arg0Lo);
  }

  /** The filter's answer: the documented decision, unless the ceiling constant wrapped to zero and
      refuses every number. */
  function FilterAction(a: ArchFilter, denied: set<Word>, d: SeccompData): Action {
    if a.maxNr == MAX_WORD then Eperm else Decision(a, denied, d)
  }

  ghost predicate Computes(f: seq<Instr>, a: ArchFilter, denied: set<Word>) {
    forall d :: Execute(f, d) == Some(ActionWord(FilterAction(a, denied, d)))
  }

  /** What a listing computes on every input, the 32-bit wrap of the ceiling included. */
  lemma ListingComputes(a: ArchFilter, f: seq<Instr>, d: SeccompData)
    requires Listing(a, f)
    ensures Execute(f, d) == Some(ActionWord(FilterAction(a, Elements(a.denied), d)))
  {
    var n := |a.denied|;
    assert Execute(f, d) == Run(f, d, 1, d.arch);
    if d.arch != a.auditArch {
      assert Run(f, d, 1, d.arch) == Run(f, d, n + 7, d.arch);
    } else {
      assert Run(f, d, 1, d.arch) == Run(f, d, 2, d.arch) == Run(f, d, 3, d.nr);
      if d.nr >= Successor(a.maxNr) {
        assert Run(f, d, 3, d.nr) == Run(f, d, n + 7, d.nr);
      } else {
        assert Run(f, d, 3, d.nr) == Run(f, d, 4, d.nr);
        RunBelowCeiling(a, f, d);
      }
    }
  }

  lemma RunBelowCeiling(a: ArchFilter, f: seq<Instr>, d: SeccompData)
    requires Listing(a, f) && d.arch == a.auditArch && d.nr <= a.maxNr
    ensures Run(f, d, 4, d.nr) == Some(ActionWord(Decision(a, Elements(a.denied), d)))
  {
    var n := |a.denied|;
    if d.nr == a.clone {
      assert Run(f, d, 4, d.nr) == Run(f, d, n + 9, d.nr);
      RunCloneCheck(a, f, d);
    } else if d.nr == a.clone3 {
      assert Run(f, d, 4, d.nr) == Run(f, d, 5, d.nr) == Run(f, d, n + 8, d.nr);
    } else {
      assert Run(f, d, 4, d.nr) == Run(f, d, 5, d.nr) == Run(f, d, 6, d.nr);
      ScanDenylist(a, f, d, 0);
      assert a.denied[0..] == a.denied;
    }
  }

  /** A listing computes the documented decision on every input if and only if the ceiling
      constant does not wrap. */
  lemma CompilerCorrectIff(a: ArchFilter, f: seq<Instr>)
    requires Listing(a, f)
    ensures (forall d :: Execute(f, d) == Some(ActionWord(Decision(a, Elements(a.denied), d))))
       <==> a.maxNr != MAX_WORD
  {
    forall d
      ensures a.maxNr != MAX_WORD
          ==> Execute(f, d) == Some(ActionWord(Decision(a, Elements(a.denied), d)))
    {
      ListingComputes(a, f, d);
    }
    if a.maxNr == MAX_WORD {
      var d := SeccompData(a.clone, a.auditArch, 0, 0);
      forall i ensures !(i in NAMESPACE_BITS && HasBit(0, i)) {
        if i in NAMESPACE_BITS { ZeroHasNoBit(i); }
      }
      ListingComputes(a, f, d);
      assert Decision(a, Elements(a.denied), d) == Allow;
      assert Execute(f, d) != Some(ActionWord(Decision(a, Elements(a.denied), d)));
    }
  }

  // ---------------------------------------------------------------------------------------------
  // The whole compiler.
  // ---------------------------------------------------------------------------------------------

  datatype Outcome = Program(f: seq<Instr>) | Refused(error: PolicyError) | Panicked

  /** seccompProgram. Refusal, panic and the meaning of the program are all exact. */
  method SeccompProgram(tables: map<string, ArchFilter>, goarch: string, policy: Option<Policy>)
    returns (r: Outcome)
    ensures r.Refused? <==> goarch !in tables || !Accepted(tables[goarch], policy)
    ensures r.Panicked? <==>
            goarch in tables && IsEmpty(policy) && |tables[goarch].denied| > MAX_DENIED
    ensures r.Program? ==> Computes(r.f, tables[goarch], EffectiveDenied(tables[goarch], policy))
    ensures r.Program? ==> 13 <= |r.f| <= 263
  {
    if goarch !in tables {
      return Refused(UnknownArchitecture);
    }
    var a := tables[goarch];
    var denied := ApplyPolicy(policy, a);
    if denied.Failure? {
      return Refused(denied.error);
    }
    var f := Assemble(a.(denied := denied.value));
    if f.None? {
      return Panicked;
    }
    RestrictedListing(a, denied.value, f.value);
    r := Program(f.value);
  }

  lemma RestrictedListing(a: ArchFilter, denied: seq<Word>, f: seq<Instr>)
    requires Listing(a.(denied := denied), f)
    ensures Computes(f, a, Elements(denied))
  {
    forall d
      ensures Execute(f, d) == Some(ActionWord(FilterAction(a, Elements(denied), d)))
    {
      ListingComputes(a.(denied := denied), f, d);
    }
  }

  /** The exact reach of a policy: two filters for one architecture answer a call differently if
      and only if the call is not structural and exactly one of the two denylists names it. */
  lemma PolicyReach(a: ArchFilter, f: seq<Instr>, denied: set<Word>, g: seq<Instr>, other: set<Word>, d: SeccompData)
    requires a.maxNr != MAX_WORD && Computes(f, a, denied) && Computes(g, a, other)
    ensures Execute(f, d) != Execute(g, d)
       <==> !Structural(a, d) && (d.nr in denied) != (d.nr in other)
  {
  }

  // ---------------------------------------------------------------------------------------------
  // The two built-in tables.
  // ---------------------------------------------------------------------------------------------

  function Amd64(names: map<string, Word>): ArchFilter {
    ArchFilter(0xC000_003E, 56, 435,
      [101, 103, 135, 153, 155, 161, 163, 164, 165, 166, 167, 168, 169, 170, 171, 172, 173, 175, 176, 179,
       212, 227, 237, 238, 239, 246, 248, 249, 250, 272, 279, 298, 300, 304, 308, 310, 311, 312, 313, 320,
       321, 323, 425, 426, 427, 428, 429, 430, 431, 432, 433, 438, 440, 442, 443, 450],
      names, 471)
  }

  function Arm64(names: map<string, Word>): ArchFilter {
    ArchFilter(0xC000_00B7, 220, 435,
      [18, 39, 40, 41, 51, 58, 60, 89, 92, 97, 104, 105, 106, 112, 116, 117, 142, 161, 162, 170, 217, 218,
       219, 224, 225, 235, 236, 237, 239, 241, 262, 265, 268, 270, 271, 272, 273, 280, 282, 294, 425, 426,
       427, 428, 429, 430, 431, 432, 433, 438, 440, 442, 443, 450],
      names, 471)
  }

  /** With the built-in tables no policy can make the compiler panic, and every accepted policy
      yields exactly the documented decision. */
  method BuiltInProgram(arm: bool, names: map<string, Word>, policy: Option<Policy>) returns (r: Outcome)
    ensures !r.Panicked?
    ensures r.Program? ==>
              var a := if arm then Arm64(names) else Amd64(names);
              Computes(r.f, a, EffectiveDenied(a, policy)) && a.maxNr != MAX_WORD
  {
    var tables := map["amd64" := Amd64(names), "arm64" := Arm64(names)];
    r := SeccompProgram(tables, if arm then "arm64" else "amd64", policy);
  }
}

/** The environment file a workload's secrets travel in: written by the agent, read back by the
    sandbox, and compared by the shape of its names. */
module SecretEnv {

  import opened Wrappers
  import opened Text

  const NL: char := '\n'

  predicate NameStart(c: char) {
    'a' <= c <= 'z' || 'A' <= c <= 'Z' || c == '_'
  }

  predicate ValidName(name: string) {
    && name != [] && NameStart(name[0])
    && forall i :: 0 <= i < |name| ==> NameStart(name[i]) || '0' <= name[i] <= '9'
  }

  predicate ValidValue(value: string) {
    NL !in value && '\r' !in value && '\0' !in value
  }

  predicate Renderable(assignment: string) {
    var (name, value, found) := Cut(assignment, '=');
    found && ValidName(name) && ValidValue(value)
  }

  predicate AllRenderable(list: seq<string>) {
    forall a :: a in list ==> Renderable(a)
  }

  function Lines(list: seq<string>): string {
    if list == [] then [] else list[0] + [NL] + Lines(list[1..])
  }

  /** One assignment per line, or nothing when one of them cannot be a line. */
  method RenderSecretEnv(list: seq<string>) returns (text: Option<string>)
    ensures text == if AllRenderable(list) then Some(Lines(list)) else None
  {
    hide Cut, ValidName, ValidValue;
    var b := [];
    assert list[0..] == list;
    for i := 0 to |list|
      invariant AllRenderable(list[..i]) && b + Lines(list[i..]) == Lines(list)
    {
      var (name, value, found) := Cut(list[i], '=');
      if !found || !ValidName(name) || !ValidValue(value) {
        assert !Renderable(list[i]);
        return None;
      }
      assert list[..i + 1] == list[..i] + [list[i]];
      assert list[i..][1..] == list[i + 1..];
      assert b + Lines(list[i..]) == (b + list[i] + [NL]) + Lines(list[i + 1..]);
      b := b + list[i] + [NL];
    }
    assert list[..|list|] == list && b + [] == b;
    text := Some(b);
  }

  predicate IsAssignment(line: string) {
    '=' in line && line[0] != '='
  }

  /** The non-empty lines, provided each is an assignment. */
  function Checked(lines: seq<string>): Option<seq<string>> {
    if lines == [] then Some([])
    else if lines[0] == [] then Checked(lines[1..])
    else if !IsAssignment(lines[0]) then None
    else After([lines[0]], Checked(lines[1..]))
  }

  function After(done: seq<string>, rest: Option<seq<string>>): Option<seq<string>> {
    if rest.Some? then Some(done + rest.value) else None
  }

  lemma AfterNothing(rest: Option<seq<string>>)
    ensures After([], rest) == rest
  {
    if rest.Some? {
      assert [] + rest.value == rest.value;
    }
  }

  lemma AfterOneMore(done: seq<string>, line: string, rest: Option<seq<string>>)
    ensures After(done, After([line], rest)) == After(done + [line], rest)
  {
    if rest.Some? {
      assert done + ([line] + rest.value) == (done + [line]) + rest.value;
    }
  }

  /** What a reader makes of a file's text. */
  function Parsed(text: string): Option<seq<string>> {
    Checked(Split(text, NL))
  }

  /** The trailing newlines trimmed first make no difference to what is read. */
  method ReadSecretEnv(text: string) returns (env: Option<seq<string>>)
    ensures env == Parsed(text)
  {
    TrimmingIsImmaterial(text);
    var lines := Split(TrimRightChar(text, NL), NL);
    var out := [];
    assert lines[0..] == lines;
    AfterNothing(Checked(lines));
    for i := 0 to |lines|
      invariant Checked(lines) == After(out, Checked(lines[i..]))
    {
      assert lines[i..][1..] == lines[i + 1..];
      if lines[i] != [] {
        var (name, _, found) := Cut(lines[i], '=');
        NameBeforeSign(lines[i]);
        if !found || name == [] {
          return None;
        }
        AfterOneMore(out, lines[i], Checked(lines[i + 1..]));
        out := out + [lines[i]];
      }
    }
    assert out + [] == out;
    env := Some(out);
  }

  lemma NameBeforeSign(line: string)
    requires line != []
    ensures IsAssignment(line) <==> Cut(line, '=').2 && Cut(line, '=').0 != []
  {
  }

  lemma {:induction false} SplitAppended(s: string, sep: char)
    ensures Split(s + [sep], sep) == Split(s, sep) + [[]]
  {
    if s != [] {
      assert (s + [sep])[1..] == s[1..] + [sep];
      SplitAppended(s[1..], sep);
    }
  }

  lemma {:induction false} BlankLineIsSkipped(lines: seq<string>)
    ensures Checked(lines + [[]]) == Checked(lines)
  {
    if lines != [] {
      assert (lines + [[]])[1..] == lines[1..] + [[]];
      BlankLineIsSkipped(lines[1..]);
    }
  }

  lemma {:induction false} TrimmingIsImmaterial(text: string)
    ensures Parsed(TrimRightChar(text, NL)) == Parsed(text)
  {
    if text != [] && text[|text| - 1] == NL {
      var s := text[..|text| - 1];
      assert text == s + [NL];
      SplitAppended(s, NL);
      BlankLineIsSkipped(Split(s, NL));
      TrimmingIsImmaterial(s);
    }
  }

  lemma RenderableIsOneLine(a: string)
    requires Renderable(a)
    ensures NL !in a && a != [] && IsAssignment(a)
  {
  }

  lemma {:induction false} LinesSplit(list: seq<string>)
    requires AllRenderable(list)
    ensures Split(Lines(list), NL) == list + [[]]
  {
    if list == [] {
      assert list + [[]] == [[]];
    } else {
      RenderableIsOneLine(list[0]);
      LinesSplit(list[1..]);
      SplitAtFirst(list[0], NL, Lines(list[1..]));
      assert [list[0]] + (list[1..] + [[]]) == list + [[]];
    }
  }

  lemma {:induction false} CheckedKeeps(list: seq<string>)
    requires AllRenderable(list)
    ensures Checked(list) == Some(list)
  {
    if list != [] {
      RenderableIsOneLine(list[0]);
      CheckedKeeps(list[1..]);
      assert [list[0]] + list[1..] == list;
    }
  }

  /** The sandbox reads back exactly the list the agent rendered, in order. */
  lemma RoundTrip(list: seq<string>)
    requires AllRenderable(list)
    ensures Parsed(Lines(list)) == Some(list)
  {
    LinesSplit(list);
    BlankLineIsSkipped(list);
    CheckedKeeps(list);
  }

  // ---- the shape of a file ----

  /** The byte order of slices.Sort on strings. */
  predicate Leq(a: string, b: string) {
    a == [] || (b != [] && (a[0] < b[0] || (a[0] == b[0] && Leq(a[1..], b[1..]))))
  }

  lemma {:induction false} LeqIsTotalOrder(a: string, b: string, c: string)
    ensures Leq(a, b) || Leq(b, a)
    ensures Leq(a, b) && Leq(b, a) ==> a == b
    ensures Leq(a, b) && Leq(b, c) ==> Leq(a, c)
  {
    if a != [] && b != [] {
      LeqIsTotalOrder(a[1..], b[1..], if c == [] then [] else c[1..]);
      assert a == [a[0]] + a[1..] && b == [b[0]] + b[1..];
    }
  }

  predicate Ascending(s: seq<string>) {
    forall i, j :: 0 <= i < j < |s| ==> Leq(s[i], s[j])
  }

  function Insert(x: string, s: seq<string>): seq<string> {
    if s == [] || Leq(x, s[0]) then [x] + s else [s[0]] + Insert(x, s[1..])
  }

  function Sort(s: seq<string>): seq<string> {
    if s == [] then [] else Insert(s[0], Sort(s[1..]))
  }

  lemma {:induction false} InsertKeepsAscending(x: string, s: seq<string>)
    requires Ascending(s)
    ensures Ascending(Insert(x, s)) && multiset(Insert(x, s)) == multiset(s) + multiset{x}
  {
    hide Leq;
    if s == [] {
    } else if Leq(x, s[0]) {
      forall j | 0 <= j < |s|
        ensures Leq(x, s[j])
      {
        LeqIsTotalOrder(x, s[0], s[j]);
      }
    } else {
      InsertKeepsAscending(x, s[1..]);
      LeqIsTotalOrder(x, s[0], []);
      assert s == [s[0]] + s[1..];
      var t := Insert(x, s[1..]);
      forall j | 0 <= j < |t|
        ensures Leq(s[0], t[j])
      {
        assert t[j] in multiset(t);
        assert t[j] == x || t[j] in s[1..];
      }
    }
  }

  lemma {:induction false} SortSorts(s: seq<string>)
    ensures Ascending(Sort(s)) && multiset(Sort(s)) == multiset(s)
  {
    if s != [] {
      SortSorts(s[1..]);
      InsertKeepsAscending(s[0], Sort(s[1..]));
      assert s == [s[0]] + s[1..];
    }
  }

  lemma {:induction false} AscendingIsUnique(a: seq<string>, b: seq<string>)
    requires Ascending(a) && Ascending(b) && multiset(a) == multiset(b)
    ensures a == b
  {
    hide Leq;
    SameSize(a, b);
    if a != [] {
      SameLeast(a, b);
      WithoutFirst(a);
      WithoutFirst(b);
      AscendingIsUnique(a[1..], b[1..]);
    }
  }

  lemma SameSize(a: seq<string>, b: seq<string>)
    requires multiset(a) == multiset(b)
    ensures |a| == |b|
  {
    assert |multiset(a)| == |a| && |multiset(b)| == |b|;
  }

  lemma WithoutFirst(s: seq<string>)
    requires s != []
    ensures s == [s[0]] + s[1..] && multiset(s[1..]) == multiset(s) - multiset{s[0]}
  {
  }

  lemma SameLeast(a: seq<string>, b: seq<string>)
    requires Ascending(a) && Ascending(b) && multiset(a) == multiset(b) && a != [] && b != []
    ensures a[0] == b[0]
  {
    hide Leq;
    assert a[0] in multiset(b) && b[0] in multiset(a);
    LeqIsTotalOrder(a[0], b[0], []);
    LeastComesFirst(a, b[0]);
    LeastComesFirst(b, a[0]);
  }

  lemma LeastComesFirst(s: seq<string>, x: string)
    requires Ascending(s) && x in s
    ensures Leq(s[0], x)
  {
    LeqIsTotalOrder(x, x, x);
  }

  /** The names of the lines that have an '='. */
  function Names(lines: seq<string>): seq<string> {
    if lines == [] then []
    else
      var (name, _, found) := Cut(lines[0], '=');
      (if found then [name] else []) + Names(lines[1..])
  }

  method EnvNames(text: string) returns (names: seq<string>)
    ensures names == Sort(Names(Split(text, NL)))
  {
    hide Cut, Split, Sort;
    var lines := Split(text, NL);
    var out := [];
    assert lines[0..] == lines;
    for i := 0 to |lines|
      invariant out + Names(lines[i..]) == Names(lines)
    {
      assert lines[i..][1..] == lines[i + 1..];
      var (name, _, found) := Cut(lines[i], '=');
      if found {
        assert out + ([name] + Names(lines[i + 1..])) == (out + [name]) + Names(lines[i + 1..]);
        out := out + [name];
      }
    }
    assert out + [] == out;
    names := Sort(out);
  }

  datatype File = Missing | Unreadable | Holds(text: string)

  /** Whether the list differs in shape from the file: in the multiset of its names. */
  method SecretEnvShapeChanged(file: File, list: seq<string>) returns (changed: bool)
    ensures file.Missing? ==> changed == (list != [])
    ensures file.Unreadable? ==> changed
    ensures file.Holds? ==>
              (changed <==> !AllRenderable(list) || multiset(Names(Split(file.text, NL))) != multiset(Names(list)))
  {
    if file.Missing? {
      return list != [];
    }
    if file.Unreadable? {
      return true;
    }
    var want := RenderSecretEnv(list);
    if want.None? {
      return true;
    }
    var have := EnvNames(file.text);
    var wanted := EnvNames(want.value);
    NamesRendered(list);
    SortedEqualIff(Names(Split(file.text, NL)), Names(list));
    changed := have != wanted;
  }

  lemma SortedEqualIff(a: seq<string>, b: seq<string>)
    ensures Sort(a) == Sort(b) <==> multiset(a) == multiset(b)
  {
    SortSorts(a);
    SortSorts(b);
    if multiset(a) == multiset(b) {
      AscendingIsUnique(Sort(a), Sort(b));
    }
  }

  lemma {:induction false} NamesAppended(lines: seq<string>)
    ensures Names(lines + [[]]) == Names(lines)
  {
    if lines != [] {
      assert (lines + [[]])[1..] == lines[1..] + [[]];
      NamesAppended(lines[1..]);
    }
  }

  /** A rendered file has exactly the names of its list, in order. */
  lemma NamesRendered(list: seq<string>)
    requires AllRenderable(list)
    ensures Names(Split(Lines(list), NL)) == Names(list)
  {
    LinesSplit(list);
    NamesAppended(list);
  }

  /** The same names in the same order, whatever the values. */
  ghost predicate Rotated(before: seq<string>, after: seq<string>) {
    |before| == |after| && forall i :: 0 <= i < |before| ==> Cut(before[i], '=').0 == Cut(after[i], '=').0
  }

  /** Rotating values moves no name, so a written file never reports a changed shape for it. */
  lemma {:induction false} RotationKeepsShape(before: seq<string>, after: seq<string>)
    requires AllRenderable(before) && AllRenderable(after) && Rotated(before, after)
    ensures Names(Split(Lines(before), NL)) == Names(after)
  {
    NamesRendered(before);
    NamesOfRotated(before, after);
  }

  lemma {:induction false} NamesOfRotated(before: seq<string>, after: seq<string>)
    requires AllRenderable(before) && AllRenderable(after) && Rotated(before, after)
    ensures Names(before) == Names(after)
  {
    if before != [] {
      assert before[0] in before && after[0] in after;
      NamesOfRotated(before[1..], after[1..]);
    }
  }
}

/** The string operations several models share, with the laws they need. */
module Text {

  /** The parts between the separators; the empty string is one empty part. */
  function Split(s: string, sep: char): (parts: seq<string>)
    ensures parts != []
  {
    if s == [] then [[]]
    else
      var rest := Split(s[1..], sep);
      if s[0] == sep then [[]] + rest else [[s[0]] + rest[0]] + rest[1..]
  }

  function Join(parts: seq<string>, sep: char): string {
    if parts == [] then []
    else if |parts| == 1 then parts[0]
    else parts[0] + [sep] + Join(parts[1..], sep)
  }

  lemma {:induction false} SplitOfPlain(s: string, sep: char)
    requires sep !in s
    ensures Split(s, sep) == [s]
  {
    if s != [] {
      SplitOfPlain(s[1..], sep);
      assert [s[0]] + s[1..] == s;
    }
  }

  lemma {:induction false} SplitAtFirst(head: string, sep: char, tail: string)
    requires sep !in head
    ensures Split(head + [sep] + tail, sep) == [head] + Split(tail, sep)
  {
    var s := head + [sep] + tail;
    if head == [] {
      assert s[1..] == tail;
    } else {
      assert s[1..] == head[1..] + [sep] + tail;
      SplitAtFirst(head[1..], sep, tail);
      assert [head[0]] + head[1..] == head;
    }
  }

  /** Splitting undoes joining parts that do not contain the separator. */
  lemma {:induction false} SplitJoin(parts: seq<string>, sep: char)
    requires parts != [] && forall p :: p in parts ==> sep !in p
    ensures Split(Join(parts, sep), sep) == parts
  {
    if |parts| == 1 {
      SplitOfPlain(parts[0], sep);
      assert parts == [parts[0]];
    } else {
      SplitAtFirst(parts[0], sep, Join(parts[1..], sep));
      SplitJoin(parts[1..], sep);
      assert parts == [parts[0]] + parts[1..];
    }
  }

  function Count(s: string, c: char): nat {
    if s == [] then 0 else (if s[0] == c then 1 else 0) + Count(s[1..], c)
  }

  lemma {:induction false} CountOfConcat(s: string, t: string, c: char)
    ensures Count(s + t, c) == Count(s, c) + Count(t, c)
  {
    if s == [] {
      assert s + t == t;
    } else {
      assert (s + t)[1..] == s[1..] + t;
      CountOfConcat(s[1..], t, c);
    }
  }

  lemma {:induction false} CountIsZeroIff(s: string, c: char)
    ensures Count(s, c) == 0 <==> c !in s
  {
    if s != [] {
      CountIsZeroIff(s[1..], c);
    }
  }

  predicate Plain(parts: seq<string>, sep: char) {
    forall p :: p in parts ==> sep !in p
  }

  /** A joined string has one separator fewer than parts, plus those inside the parts. */
  lemma {:induction false} JoinCounts(parts: seq<string>, sep: char)
    requires parts != []
    ensures Count(Join(parts, sep), sep) >= |parts| - 1
    ensures Count(Join(parts, sep), sep) == |parts| - 1 <==> Plain(parts, sep)
  {
    CountIsZeroIff(parts[0], sep);
    if |parts| > 1 {
      JoinCounts(parts[1..], sep);
      CountOfConcat(parts[0] + [sep], Join(parts[1..], sep), sep);
      CountOfConcat(parts[0], [sep], sep);
      assert parts == [parts[0]] + parts[1..];
    }
  }

  /** Only parts without the separator join to what such parts join to. */
  lemma PlainJoinIsUnique(a: seq<string>, b: seq<string>, sep: char)
    requires a != [] && |b| == |a| && Join(a, sep) == Join(b, sep) && Plain(a, sep)
    ensures a == b
  {
    JoinCounts(a, sep);
    JoinCounts(b, sep);
    SplitJoin(a, sep);
    SplitJoin(b, sep);
  }

  /** Two neighbours may be exchanged for two that join to the same. */
  lemma {:induction false} JoinNeighbours(parts: seq<string>, i: nat, x: string, y: string, sep: char)
    requires i + 1 < |parts| && parts[i] + [sep] + parts[i + 1] == x + [sep] + y
    ensures Join(parts[i := x][i + 1 := y], sep) == Join(parts, sep)
    decreases i
  {
    var other := parts[i := x][i + 1 := y];
    if i > 0 {
      JoinNeighbours(parts[1..], i - 1, x, y, sep);
      assert other[1..] == parts[1..][i - 1 := x][i := y];
    } else if |parts| == 2 {
      assert Join(parts[1..], sep) == parts[1] && Join(other[1..], sep) == y;
    } else {
      assert other[1..][1..] == parts[1..][1..];
      var rest := Join(parts[1..][1..], sep);
      assert Join(parts, sep) == (parts[0] + [sep] + parts[1]) + ([sep] + rest);
      assert Join(other, sep) == (x + [sep] + y) + ([sep] + rest);
    }
  }

  /** strings.Cut: the part before the first separator, the part after, whether there was one. */
  function Cut(s: string, sep: char): (r: (string, string, bool))
    ensures r.2 <==> sep in s
    ensures r.2 ==> s == r.0 + [sep] + r.1 && sep !in r.0
  {
    if s == [] then ([], [], false)
    else if s[0] == sep then ([], s[1..], true)
    else
      var (before, after, found) := Cut(s[1..], sep);
      ([s[0]] + before, after, found)
  }

  /** strings.Trim with a one-character cutset. */
  function TrimChar(s: string, c: char): string {
    if s == [] then s
    else if s[0] == c then TrimChar(s[1..], c)
    else if s[|s| - 1] == c then TrimChar(s[..|s| - 1], c)
    else s
  }

  /** strings.TrimRight with a one-character cutset. */
  function TrimRightChar(s: string, c: char): string {
    if s != [] && s[|s| - 1] == c then TrimRightChar(s[..|s| - 1], c) else s
  }

  /** The white space strings.TrimSpace removes. */
  predicate IsSpace(c: char) {
    || c in {'\t', '\n', '\U{000B}', '\U{000C}', '\r', ' ', '\U{0085}', '\U{00A0}', '\U{1680}'}
    || '\U{2000}' <= c <= '\U{200A}'
    || c in {'\U{2028}', '\U{2029}', '\U{202F}', '\U{205F}', '\U{3000}'}
  }

  function TrimLeft(s: string): string {
    if s != [] && IsSpace(s[0]) then TrimLeft(s[1..]) else s
  }

  function TrimRight(s: string): string {
    if s != [] && IsSpace(s[|s| - 1]) then TrimRight(s[..|s| - 1]) else s
  }

  function TrimSpace(s: string): string {
    TrimRight(TrimLeft(s))
  }

  lemma {:induction false} TrimLeftDropsPadding(pad: string, s: string)
    requires forall c :: c in pad ==> IsSpace(c)
    requires s == [] || !IsSpace(s[0])
    ensures TrimLeft(pad + s) == s
  {
    if pad == [] {
      assert pad + s == s;
    } else {
      assert (pad + s)[1..] == pad[1..] + s;
      TrimLeftDropsPadding(pad[1..], s);
    }
  }

  lemma {:induction false} TrimRightDropsPadding(s: string, pad: string)
    requires forall c :: c in pad ==> IsSpace(c)
    requires s == [] || !IsSpace(s[|s| - 1])
    ensures TrimRight(s + pad) == s
  {
    if pad == [] {
      assert s + pad == s;
    } else {
      assert (s + pad)[..|s + pad| - 1] == s + pad[..|pad| - 1];
      TrimRightDropsPadding(s, pad[..|pad| - 1]);
    }
  }

  predicate IsDigit(c: char) {
    '0' <= c <= '9'
  }

  function DecimalValue(s: string): nat
    requires forall c :: c in s ==> IsDigit(c)
  {
    if s == [] then 0
    else
      assert s[|s| - 1] in s && IsDigit(s[|s| - 1]);
      DecimalValue(s[..|s| - 1]) * 10 + ((s[|s| - 1] as int) - ('0' as int))
  }

  /** The decimal spelling of a number, without leading zeros. */
  function Decimal(n: nat): (s: string)
    ensures s != [] && forall c :: c in s ==> IsDigit(c)
    ensures DecimalValue(s) == n
  {
    var digit := [('0' as int + n % 10) as char];
    if n < 10 then digit
    else
      var s := Decimal(n / 10) + digit;
      assert s[..|s| - 1] == Decimal(n / 10);
      s
  }
}

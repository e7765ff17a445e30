/** Netlink attributes: a length, a type and a value padded to four bytes, possibly nested. */
module Netlink {

  import opened Wrappers

  type Byte = x: nat | x < 256
  type Uint16 = x: nat | x < 0x1_0000

  const HEADER := 4
  const NESTED: Uint16 := 0x8000

  /** Rounding up to a multiple of four, as (n + 3) &^ 3. */
  function RtaAlign(n: nat): (r: nat)
    ensures r % 4 == 0 && n <= r < n + 4
  {
    (n + 3) / 4 * 4
  }

  /** No smaller multiple of four covers the length. */
  lemma AlignIsLeast(n: nat, m: nat)
    requires n <= m && m % 4 == 0
    ensures RtaAlign(n) <= m
  {
  }

  /** The conversion to uint16: what does not fit is cut off. */
  function Truncated(n: nat): Uint16 {
    n % 0x1_0000
  }

  /** Two bytes, low one first. */
  function LittleEndian16(n: Uint16): (r: seq<Byte>)
    ensures |r| == 2 && Read16(r) == n
  {
    [n % 256, n / 256]
  }

  function Read16(b: seq<Byte>): Uint16
    requires |b| >= 2
  {
    b[0] as int + 256 * (b[1] as int)
  }

  function Zeros(n: nat): (r: seq<Byte>)
    ensures |r| == n
  {
    seq(n, _ => 0)
  }

  function Encoded(typ: Uint16, value: seq<Byte>): (r: seq<Byte>)
    ensures |r| == RtaAlign(HEADER + |value|)
  {
    var length := HEADER + |value|;
    LittleEndian16(Truncated(length)) + LittleEndian16(typ) + value + Zeros(RtaAlign(length) - length)
  }

  /** The buffer starts out zeroed; header and value are copied in. */
  method Attr(typ: Uint16, value: seq<Byte>) returns (buf: array<Byte>)
    ensures fresh(buf) && buf[..] == Encoded(typ, value)
  {
    hide RtaAlign, LittleEndian16, Encoded;
    var length := HEADER + |value|;
    buf := new Byte[RtaAlign(length)](_ => 0);
    PutUint16(buf, 0, Truncated(length));
    PutUint16(buf, 2, typ);
    Copy(buf, HEADER, value);
    BufferIsEncoded(buf[..], typ, value);
  }

  lemma BufferIsEncoded(b: seq<Byte>, typ: Uint16, value: seq<Byte>)
    requires |b| == RtaAlign(HEADER + |value|)
    requires b[..2] == LittleEndian16(Truncated(HEADER + |value|)) && b[2..4] == LittleEndian16(typ)
    requires b[HEADER..HEADER + |value|] == value
    requires forall j :: HEADER + |value| <= j < |b| ==> b[j] == 0
    ensures b == Encoded(typ, value)
  {
  }

  method Copy(buf: array<Byte>, at: nat, value: seq<Byte>)
    requires at + |value| <= buf.Length
    modifies buf
    ensures buf[at..at + |value|] == value
    ensures forall j :: 0 <= j < buf.Length && !(at <= j < at + |value|) ==> buf[j] == old(buf[j])
  {
    for i := 0 to |value|
      invariant forall j :: 0 <= j < i ==> buf[at + j] == value[j]
      invariant forall j :: 0 <= j < buf.Length && !(at <= j < at + i) ==> buf[j] == old(buf[j])
    {
      buf[at + i] := value[i];
    }
  }

  method PutUint16(buf: array<Byte>, at: nat, n: Uint16)
    requires at + 2 <= buf.Length
    modifies buf
    ensures buf[at..at + 2] == LittleEndian16(n)
    ensures forall j :: 0 <= j < buf.Length && j != at && j != at + 1 ==> buf[j] == old(buf[j])
  {
    buf[at], buf[at + 1] := n % 256, n / 256;
  }

  /** An attribute is a leaf, or a nest of attributes. */
  datatype Tree = Leaf(typ: Uint16, value: seq<Byte>) | Nest(typ: Uint16, children: seq<Tree>)

  function OrNested(typ: Uint16): Uint16 {
    if typ < NESTED then typ + NESTED else typ
  }

  function Encode(t: Tree): seq<Byte>
    decreases t, 0
  {
    match t
    case Leaf(typ, value) => Encoded(typ, value)
    case Nest(typ, children) => Encoded(OrNested(typ), EncodeAll(children))
  }

  function EncodeAll(ts: seq<Tree>): seq<Byte>
    decreases ts
  {
    if ts == [] then [] else Encode(ts[0]) + EncodeAll(ts[1..])
  }

  /** The children's encodings are appended in a loop and wrapped. */
  method AttrNested(typ: Uint16, children: seq<Tree>) returns (buf: array<Byte>)
    ensures buf[..] == Encode(Nest(typ, children))
  {
    var body: seq<Byte> := [];
    assert children[0..] == children;
    for i := 0 to |children|
      invariant body + EncodeAll(children[i..]) == EncodeAll(children)
    {
      assert children[i..][1..] == children[i + 1..];
      assert body + (Encode(children[i]) + EncodeAll(children[i + 1..]))
          == (body + Encode(children[i])) + EncodeAll(children[i + 1..]);
      body := body + Encode(children[i]);
    }
    assert body + [] == body;
    buf := Attr(OrNested(typ), body);
  }

  /** Reading attributes by their lengths, each next one at the aligned end of the last. */
  function Decode(b: seq<Byte>): Option<seq<Tree>>
    decreases |b|, 0
  {
    if b == [] then Some([])
    else if |b| < HEADER then None
    else
      var length, typ := Read16(b), Read16(b[2..]);
      if length < HEADER || RtaAlign(length) > |b| then None
      else
        Prepend(DecodeOne(typ, b[HEADER..length]), Decode(b[RtaAlign(length)..]))
  }

  function DecodeOne(typ: Uint16, body: seq<Byte>): Option<Tree>
    decreases |body|, 1
  {
    if typ < NESTED then Some(Leaf(typ, body))
    else
      var children :- Decode(body);
      Some(Nest(typ - NESTED, children))
  }

  function Prepend(first: Option<Tree>, rest: Option<seq<Tree>>): Option<seq<Tree>> {
    if first.Some? && rest.Some? then Some([first.value] + rest.value) else None
  }

  /** Lengths fit in sixteen bits and types leave the nesting flag alone. */
  predicate Fits(t: Tree)
    decreases t, 0
  {
    t.typ < NESTED &&
    match t
    case Leaf(_, value) => HEADER + |value| < 0x1_0000
    case Nest(_, children) => HEADER + |EncodeAll(children)| < 0x1_0000 && AllFit(children)
  }

  predicate AllFit(ts: seq<Tree>)
    decreases ts
  {
    ts == [] || (Fits(ts[0]) && AllFit(ts[1..]))
  }

  /** What one step of decoding sees of an encoded attribute followed by anything. */
  lemma HeaderOf(typ: Uint16, value: seq<Byte>, tail: seq<Byte>)
    ensures var b := Encoded(typ, value) + tail;
            && |b| >= HEADER && Read16(b) == Truncated(HEADER + |value|) && Read16(b[2..]) == typ
            && b[HEADER..HEADER + |value|] == value
            && b[RtaAlign(HEADER + |value|)..] == tail
  {
  }

  /** One decoding step, over an attribute whose length may have been cut off. */
  lemma DecodeStep(typ: Uint16, value: seq<Byte>, tail: seq<Byte>)
    ensures var b, length := Encoded(typ, value) + tail, Truncated(HEADER + |value|);
            Decode(b) ==
            if length < HEADER then None else Prepend(DecodeOne(typ, b[HEADER..length]), Decode(b[RtaAlign(length)..]))
  {
    hide LittleEndian16, Read16, Encoded, DecodeOne, Prepend;
    HeaderOf(typ, value, tail);
  }

  lemma DecodeWhole(typ: Uint16, value: seq<Byte>, tail: seq<Byte>)
    requires HEADER + |value| < 0x1_0000
    ensures Decode(Encoded(typ, value) + tail) == Prepend(DecodeOne(typ, value), Decode(tail))
  {
    hide LittleEndian16, Read16, Encoded, Decode, DecodeOne, Prepend, RtaAlign;
    DecodeStep(typ, value, tail);
    HeaderOf(typ, value, tail);
  }

  /** Walking the bytes by aligned lengths recovers the attributes that were encoded. */
  lemma {:induction false} DecodeEncode(ts: seq<Tree>)
    requires AllFit(ts)
    ensures Decode(EncodeAll(ts)) == Some(ts)
    decreases ts
  {
    hide Encoded, RtaAlign;
    if ts != [] {
      DecodeEncode(ts[1..]);
      assert ts == [ts[0]] + ts[1..];
      match ts[0]
      case Leaf(typ, value) =>
        DecodeWhole(typ, value, EncodeAll(ts[1..]));
      case Nest(typ, children) =>
        DecodeEncode(children);
        DecodeWhole(OrNested(typ), EncodeAll(children), EncodeAll(ts[1..]));
    }
  }

  /** Whatever decodes is as long as the encoding of what it decodes to. */
  lemma {:induction false} DecodedLength(b: seq<Byte>)
    requires Decode(b).Some?
    ensures |EncodeAll(Decode(b).value)| == |b|
    decreases |b|
  {
    if b != [] {
      var length, typ := Read16(b), Read16(b[2..]);
      var body, rest := b[HEADER..length], b[RtaAlign(length)..];
      DecodedLength(rest);
      if typ >= NESTED {
        DecodedLength(body);
      }
      FirstLength(typ, body, Decode(rest).value);
    }
  }

  lemma FirstLength(typ: Uint16, body: seq<Byte>, ts: seq<Tree>)
    requires DecodeOne(typ, body).Some?
    requires typ >= NESTED ==> |EncodeAll(Decode(body).value)| == |body|
    ensures |EncodeAll([DecodeOne(typ, body).value] + ts)| == RtaAlign(HEADER + |body|) + |EncodeAll(ts)|
  {
  }

  /** Decoding recovers the attributes exactly when every length and type fits. */
  lemma DecodesBackIff(ts: seq<Tree>)
    ensures Decode(EncodeAll(ts)) == Some(ts) <==> AllFit(ts)
  {
    if AllFit(ts) {
      DecodeEncode(ts);
    }
    if Decode(EncodeAll(ts)) == Some(ts) {
      DecodedFits(ts);
    }
  }

  lemma {:induction false} DecodedFits(ts: seq<Tree>)
    requires Decode(EncodeAll(ts)) == Some(ts)
    ensures AllFit(ts)
    decreases ts
  {
    hide Decode, Encoded, RtaAlign;
    if ts != [] {
      FirstFits(ts);
      if ts[0].Nest? {
        DecodedFits(ts[0].children);
      }
      assert Fits(ts[0]);
      DecodedFits(ts[1..]);
    }
  }

  /** The value an attribute carries on the wire. */
  function Body(t: Tree): seq<Byte> {
    if t.Leaf? then t.value else EncodeAll(t.children)
  }

  lemma FirstFits(ts: seq<Tree>)
    requires ts != [] && Decode(EncodeAll(ts)) == Some(ts)
    ensures ts[0].typ < NESTED && HEADER + |Body(ts[0])| < 0x1_0000
    ensures ts[0].Nest? ==> Decode(EncodeAll(ts[0].children)) == Some(ts[0].children)
    ensures Decode(EncodeAll(ts[1..])) == Some(ts[1..])
  {
    hide RtaAlign, Encoded, Decode;
    var t, tail := ts[0], EncodeAll(ts[1..]);
    var typ := if t.Leaf? then t.typ else OrNested(t.typ);
    var b, length := Encoded(typ, Body(t)) + tail, Truncated(HEADER + |Body(t)|);
    assert EncodeAll(ts) == b;
    DecodeStep(typ, Body(t), tail);
    var body := b[HEADER..length];
    assert ts[0] == DecodeOne(typ, body).value;
    if t.Nest? {
      DecodedLength(body);
    }
    assert |body| == |Body(t)|;
    DecodeWhole(typ, Body(t), tail);
    assert ts == [ts[0]] + ts[1..];
  }
}

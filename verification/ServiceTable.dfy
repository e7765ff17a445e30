/** The kernel layout of the socket load balancer's two tables, and the request that fills them. */
module ServiceTable {

  import opened Wrappers
  import opened Maths

  newtype byte = x: int | 0 <= x < 256

  type Bytes = seq<byte>

  const SVC_KEY_SIZE: nat := 8
  const BACKEND_KEY_SIZE: nat := 12
  const INDEX_LIMIT: nat := 65536

  type Port = p: nat | 0 < p < 65536 witness 1

  // ---------------------------------------------------------------------------------------------
  // Layout. Addresses and ports are in network order, the backend index in the (little-endian)
  // host order of the two supported architectures.
  // ---------------------------------------------------------------------------------------------

  function ServiceKey(ip: Bytes, port: Port, proto: byte): Bytes {
    ip + [(port / 256) as byte, (port % 256) as byte, proto, 0]
  }

  /** The index is truncated to 16 bits, as the conversion in the source does. */
  function BackendKey(svc: Bytes, index: nat): Bytes {
    svc + [(index % 256) as byte, (index / 256 % 256) as byte, 0, 0]
  }

  function BackendValue(ip: Bytes, port: Port): Bytes {
    ip + [(port / 256) as byte, (port % 256) as byte, 0, 0]
  }

  function ServicePart(key: Bytes): Bytes
    requires |key| == BACKEND_KEY_SIZE
  {
    key[..SVC_KEY_SIZE]
  }

  function IndexPart(key: Bytes): nat
    requires |key| == BACKEND_KEY_SIZE
  {
    key[8] as nat + 256 * key[9] as nat
  }

  /** A key this program could have written: twelve bytes with a zero pad. */
  predicate Canonical(key: Bytes) {
    |key| == BACKEND_KEY_SIZE && key[10] == 0 && key[11] == 0
  }

  lemma ServiceKeyInjective(ip: Bytes, port: Port, proto: byte, ip': Bytes, port': Port, proto': byte)
    requires |ip| == |ip'| == 4
    requires ServiceKey(ip, port, proto) == ServiceKey(ip', port', proto')
    ensures ip == ip' && port == port' && proto == proto'
  {
    var k, k' := ServiceKey(ip, port, proto), ServiceKey(ip', port', proto');
    assert ip == k[..4] && ip' == k'[..4];
    assert k[4] as nat * 256 + k[5] as nat == port && k'[4] as nat * 256 + k'[5] as nat == port';
    assert k[6] == proto && k'[6] == proto';
  }

  lemma BackendValueInjective(ip: Bytes, port: Port, ip': Bytes, port': Port)
    requires |ip| == |ip'| == 4
    requires BackendValue(ip, port) == BackendValue(ip', port')
    ensures ip == ip' && port == port'
  {
    var v, v' := BackendValue(ip, port), BackendValue(ip', port');
    assert ip == v[..4] && ip' == v'[..4];
    assert v[4] as nat * 256 + v[5] as nat == port && v'[4] as nat * 256 + v'[5] as nat == port';
  }

  /** Encoding then decoding a backend key gives back the service and the 16-bit index. */
  lemma BackendKeyDecodes(svc: Bytes, index: nat)
    requires |svc| == SVC_KEY_SIZE
    ensures Canonical(BackendKey(svc, index))
    ensures ServicePart(BackendKey(svc, index)) == svc
    ensures IndexPart(BackendKey(svc, index)) == index % INDEX_LIMIT
  {
  }

  /** Decoding then encoding a canonical key gives back the key. */
  lemma CanonicalKeyEncodes(key: Bytes)
    requires Canonical(key)
    ensures |ServicePart(key)| == SVC_KEY_SIZE && IndexPart(key) < INDEX_LIMIT
    ensures BackendKey(ServicePart(key), IndexPart(key)) == key
  {
  }

  // ---------------------------------------------------------------------------------------------
  // The request.
  // ---------------------------------------------------------------------------------------------

  /** What parsing an address string gave. */
  datatype Address = Malformed | V4(octets: Bytes) | V6

  datatype Backend = Backend(address: Address, port: int)
  datatype Rule = Rule(clusterIp: Address, port: int, protocol: string, backends: seq<Backend>)

  /** The service table a request asks for: encoded key to encoded backends, in order. */
  type Table = map<Bytes, seq<Bytes>>

  function Upper(s: string): string {
    if s == [] then []
    else
      var c := if 'a' <= s[0] <= 'z' then ((s[0] as int) - 32) as char else s[0];
      [c] + Upper(s[1..])
  }

  function ProtocolNumber(p: string): Option<byte> {
    var up := Upper(p);
    if up == "" || up == "TCP" then Some(6)
    else if up == "UDP" then Some(17)
    else None
  }

  function Address4(a: Address): Option<Bytes> {
    if a.V4? && |a.octets| == 4 then Some(a.octets) else None
  }

  function Port16(p: int): Option<Port> {
    if p <= 0 || p > 65535 then None else Some(p)
  }

  function RuleKey(r: Rule): Option<Bytes> {
    var proto := ProtocolNumber(r.protocol);
    var ip := Address4(r.clusterIp);
    var port := Port16(r.port);
    if proto.None? || ip.None? || port.None? then None
    else Some(ServiceKey(ip.value, port.value, proto.value))
  }

  function EncodedBackend(b: Backend): Option<Bytes> {
    var ip := Address4(b.address);
    var port := Port16(b.port);
    if ip.None? || port.None? then None else Some(BackendValue(ip.value, port.value))
  }

  predicate ValidRule(r: Rule) {
    RuleKey(r).Some? && forall b :: b in r.backends ==> EncodedBackend(b).Some?
  }

  /** The encoded backends of a rule, in order. */
  function Row(backends: seq<Backend>): seq<Bytes>
    requires forall b :: b in backends ==> EncodedBackend(b).Some?
  {
    seq(|backends|, i requires 0 <= i < |backends| => assert backends[i] in backends; EncodedBackend(backends[i]).value)
  }

  predicate AllValid(rules: seq<Rule>) {
    forall i :: 0 <= i < |rules| ==> ValidRule(rules[i])
  }

  function Keys(rules: seq<Rule>): seq<Bytes>
    requires AllValid(rules)
  {
    seq(|rules|, i requires 0 <= i < |rules| => RuleKey(rules[i]).value)
  }

  function Rows(rules: seq<Rule>): seq<seq<Bytes>>
    requires AllValid(rules)
  {
    seq(|rules|, i requires 0 <= i < |rules| => Row(rules[i].backends))
  }

  predicate Distinct(keys: seq<Bytes>) {
    forall i, j :: 0 <= i < j < |keys| ==> keys[i] != keys[j]
  }

  /** Every rule is well formed and no two name one service. */
  predicate ValidRules(rules: seq<Rule>) {
    AllValid(rules) && Distinct(Keys(rules))
  }

  /** The table holds each key with its row, and nothing else. */
  ghost predicate Pairs(table: Table, keys: seq<Bytes>, rows: seq<seq<Bytes>>) {
    && |keys| == |rows|
    && (forall k :: k in table ==> k in keys)
    && (forall i :: 0 <= i < |keys| ==> keys[i] in table && table[keys[i]] == rows[i])
  }

  method EncodeBackends(backends: seq<Backend>) returns (r: Option<seq<Bytes>>)
    ensures r.Some? <==> forall b :: b in backends ==> EncodedBackend(b).Some?
    ensures r.Some? ==> r.value == Row(backends)
  {
    var out: seq<Bytes> := [];
    for i := 0 to |backends|
      invariant |out| == i
      invariant forall j :: 0 <= j < i ==> Some(out[j]) == EncodedBackend(backends[j])
    {
      var v := EncodedBackend(backends[i]);
      if v.None? {
        assert backends[i] in backends;
        return None;
      }
      out := out + [v.value];
    }
    r := Some(out);
  }

  method EncodeRule(rule: Rule) returns (r: Option<(Bytes, seq<Bytes>)>)
    ensures r.Some? <==> ValidRule(rule)
    ensures r.Some? ==> r.value == (RuleKey(rule).value, Row(rule.backends)) && |r.value.0| == SVC_KEY_SIZE
  {
    var key := RuleKey(rule);
    if key.None? {
      return None;
    }
    var backends := EncodeBackends(rule.backends);
    if backends.None? {
      return None;
    }
    r := Some((key.value, backends.value));
  }

  lemma PairsExtend(table: Table, keys: seq<Bytes>, rows: seq<seq<Bytes>>, key: Bytes, row: seq<Bytes>)
    requires Pairs(table, keys, rows) && Distinct(keys) && key !in table
    ensures Pairs(table[key := row], keys + [key], rows + [row]) && Distinct(keys + [key])
  {
  }

  lemma RulesExtend(rules: seq<Rule>, i: nat)
    requires i < |rules| && AllValid(rules[..i]) && ValidRule(rules[i])
    ensures AllValid(rules[..i + 1])
    ensures Keys(rules[..i + 1]) == Keys(rules[..i]) + [RuleKey(rules[i]).value]
    ensures Rows(rules[..i + 1]) == Rows(rules[..i]) + [Row(rules[i].backends)]
  {
  }

  lemma RepeatedKeyIsInvalid(rules: seq<Rule>, i: nat)
    requires i < |rules| && AllValid(rules[..i]) && ValidRule(rules[i])
    requires RuleKey(rules[i]).value in Keys(rules[..i])
    ensures !ValidRules(rules)
  {
    var m :| 0 <= m < i && Keys(rules[..i])[m] == RuleKey(rules[i]).value;
    if AllValid(rules) {
      assert Keys(rules)[m] == Keys(rules)[i];
    }
  }

  /** serviceTable: the request is refused whole, or encoded exactly. */
  method BuildTable(rules: seq<Rule>) returns (r: Option<Table>)
    ensures r.Some? <==> ValidRules(rules)
    ensures r.Some? ==> Pairs(r.value, Keys(rules), Rows(rules))
    ensures r.Some? ==> forall k :: k in r.value ==> |k| == SVC_KEY_SIZE
  {
    var want: Table := map[];
    for i := 0 to |rules|
      invariant AllValid(rules[..i])
      invariant Pairs(want, Keys(rules[..i]), Rows(rules[..i])) && Distinct(Keys(rules[..i]))
      invariant forall k :: k in want ==> |k| == SVC_KEY_SIZE
    {
      var entry := EncodeRule(rules[i]);
      if entry.None? {
        return None;
      }
      var (key, row) := entry.value;
      if key in want {
        RepeatedKeyIsInvalid(rules, i);
        return None;
      }
      RulesExtend(rules, i);
      PairsExtend(want, Keys(rules[..i]), Rows(rules[..i]), key, row);
      want := want[key := row];
    }
    assert rules[..|rules|] == rules;
    r := Some(want);
  }

  // ---------------------------------------------------------------------------------------------
  // The pair of kernel maps a table means.
  // ---------------------------------------------------------------------------------------------

  /** The (service, index) pairs of a table. */
  ghost function Slots(table: Table): set<(Bytes, nat)> {
    set k, i: nat | k in table && i < |table[k]| :: (k, i)
  }

  ghost predicate Covers(table: Table, key: Bytes) {
    |key| == BACKEND_KEY_SIZE && ServicePart(key) in table && IndexPart(key) < |table[ServicePart(key)]|
  }

  /** The backend keys a table names. */
  ghost function BackendKeys(table: Table): set<Bytes> {
    set k, i: nat | k in table && i < |table[k]| :: BackendKey(k, i)
  }

  ghost function BackendMap(table: Table): map<Bytes, Bytes> {
    map key | key in BackendKeys(table) && Covers(table, key) :: table[ServicePart(key)][IndexPart(key)]
  }

  ghost function CountMap(table: Table): map<Bytes, nat> {
    map k | k in table :: |table[k]|
  }

  /** A table the encoding can express: eight-byte keys and at most 65536 backends a service. */
  ghost predicate Encodable(table: Table) {
    forall k :: k in table ==> |k| == SVC_KEY_SIZE && |table[k]| <= INDEX_LIMIT
  }

  /** Being named by the table and decoding into it are the same thing for a canonical key. */
  lemma NamedIffCovered(table: Table, key: Bytes)
    requires Encodable(table)
    ensures key in BackendKeys(table) <==> Canonical(key) && Covers(table, key)
  {
    if key in BackendKeys(table) {
      var k, i: nat :| k in table && i < |table[k]| && key == BackendKey(k, i);
      BackendKeyDecodes(k, i);
    }
    if Canonical(key) && Covers(table, key) {
      CanonicalKeyEncodes(key);
      var k, i := ServicePart(key), IndexPart(key);
      assert k in table && i < |table[k]| && key == BackendKey(k, i);
    }
  }

  lemma BackendMapAt(table: Table, k: Bytes, i: nat)
    requires Encodable(table) && k in table && i < |table[k]|
    ensures BackendKey(k, i) in BackendKeys(table)
    ensures BackendKey(k, i) in BackendMap(table) && BackendMap(table)[BackendKey(k, i)] == table[k][i]
  {
    BackendKeyDecodes(k, i);
  }

  lemma BackendMapKeys(table: Table)
    requires Encodable(table)
    ensures BackendMap(table).Keys == BackendKeys(table)
  {
  }

  lemma {:induction false} RowSize(k: Bytes, n: nat)
    ensures |set i: nat | i < n :: (k, i)| == n
  {
    var row := set i: nat | i < n :: (k, i);
    if n == 0 {
      assert row == {};
    } else {
      var shorter := set i: nat | i < n - 1 :: (k, i);
      assert row == shorter + {(k, n - 1)};
      RowSize(k, n - 1);
    }
  }

  lemma SlotsExtend(table: Table, k: Bytes, backends: seq<Bytes>)
    requires k !in table
    ensures |Slots(table[k := backends])| == |Slots(table)| + |backends|
  {
    var row := set i: nat | i < |backends| :: (k, i);
    RowSize(k, |backends|);
    assert Slots(table[k := backends]) == Slots(table) + row;
    assert Slots(table) !! row;
  }

  lemma ServiceFitsTotal(table: Table, k: Bytes)
    requires k in table
    ensures |table[k]| <= |Slots(table)|
  {
    var row := set i: nat | i < |table[k]| :: (k, i);
    RowSize(k, |table[k]|);
    assert row <= Slots(table);
    SubsetSize(row, Slots(table));
  }

  /** The loop that adds up the backends of every service. */
  method CountBackends(table: Table) returns (total: nat)
    ensures total == |Slots(table)|
  {
    total := 0;
    var seen: Table := map[];
    var todo := table.Keys;
    while todo != {}
      invariant todo <= table.Keys
      invariant seen == map k | k in table && k !in todo :: table[k]
      invariant total == |Slots(seen)|
    {
      var k :| k in todo;
      SlotsExtend(seen, k, table[k]);
      total := total + |table[k]|;
      seen := seen[k := table[k]];
      todo := todo - {k};
    }
    assert seen == table;
  }
}

/** Filling a document's absent fields with the defaults a JSON schema declares. */
module Defaults {

  import opened Wrappers

  datatype Json =
    | Null
    | Bool(flag: bool)
    | Number(literal: string)
    | Text(text: string)
    | Arr(elems: seq<Json>)
    | Obj(fields: map<string, Json>)

  /** The member `name` of an object. */
  function Member(v: Json, name: string): (r: Option<Json>)
    ensures r.Some? ==> v.Obj? && name in v.fields && r.value == v.fields[name]
  {
    if v.Obj? && name in v.fields then Some(v.fields[name]) else None
  }

  /** The property schemas that are objects; anything else is not a schema and is passed over. */
  function Properties(schema: Json): (r: map<string, Json>)
    ensures forall k :: k in r ==> r[k].Obj? && r[k] < schema
  {
    match Member(schema, "properties")
    case Some(Obj(fields)) => map k | k in fields && fields[k].Obj? :: fields[k]
    case _ => map[]
  }

  function Items(schema: Json): (r: Option<Json>)
    ensures r.Some? ==> r.value.Obj? && r.value < schema
  {
    match Member(schema, "items")
    case Some(Obj(fields)) => Some(Obj(fields))
    case _ => None
  }

  /** The default a property schema declares; a null one declares nothing. */
  function Declared(schema: Json): Json {
    match Member(schema, "default")
    case Some(d) => d
    case None => Null
  }

  /** The meaning of a schema's defaults, by recursion on the document. */
  function Fill(schema: Json, v: Json): Json
    decreases v
  {
    var subs := Properties(schema);
    match v
    case Obj(fields) =>
      Obj(map k | k in fields.Keys + subs.Keys && (k in fields || Declared(subs[k]) != Null) ::
            if k !in fields then Declared(subs[k])
            else if k in subs then Fill(subs[k], fields[k])
            else fields[k])
    case Arr(elems) =>
      if Items(schema).None? then v
      else Arr(seq(|elems|, i requires 0 <= i < |elems| => Fill(Items(schema).value, elems[i])))
    case _ => v
  }

  /** One node of the collected defaults. */
  datatype Node = Node(value: Json, props: map<string, Node>, elem: Option<Node>)

  const BARE := Node(Null, map[], None)

  /** The defaults below a schema, or none. */
  function Collected(schema: Json): Option<Node>
    decreases schema, 0
  {
    var subs := Properties(schema);
    var props := map k | k in subs && Child(subs[k]).Some? :: Child(subs[k]).value;
    var elem := if Items(schema).Some? then Collected(Items(schema).value) else None;
    if props == map[] && elem.None? then None else Some(Node(Null, props, elem))
  }

  function Child(sub: Json): Option<Node>
    decreases sub, 1
  {
    var node := Collected(sub);
    match Member(sub, "default")
    case Some(d) => Some((if node.Some? then node.value else BARE).(value := d))
    case None => node
  }

  function Applied(n: Node, v: Json): Json
    decreases v
  {
    match v
    case Obj(fields) =>
      Obj(map k | k in fields.Keys + n.props.Keys && (k in fields || n.props[k].value != Null) ::
            if k !in fields then n.props[k].value
            else if k in n.props then Applied(n.props[k], fields[k])
            else fields[k])
    case Arr(elems) =>
      if n.elem.None? then v else Arr(seq(|elems|, i requires 0 <= i < |elems| => Applied(n.elem.value, elems[i])))
    case _ => v
  }

  function AppliedTo(n: Option<Node>, v: Json): Json {
    if n.Some? then Applied(n.value, v) else v
  }

  /** Collecting the defaults first and applying them afterwards is filling from the schema. */
  lemma {:induction false} CollectThenApply(schema: Json, v: Json)
    ensures AppliedTo(Collected(schema), v) == Fill(schema, v)
    decreases v
  {
    var subs := Properties(schema);
    if v.Obj? {
      forall k | k in subs && k in v.fields
        ensures AppliedTo(Child(subs[k]), v.fields[k]) == Fill(subs[k], v.fields[k])
      {
        CollectThenApply(subs[k], v.fields[k]);
        ValueIsForTheParent(subs[k], v.fields[k]);
      }
      forall k | k in subs
        ensures Declared(subs[k]) == if Child(subs[k]).Some? then Child(subs[k]).value.value else Null
      {
        ChildCarriesDefault(subs[k]);
      }
      PropsCollected(schema);
      FieldsAgree(Collected(schema), schema, v.fields);
    } else if v.Arr? && Items(schema).Some? {
      forall i | 0 <= i < |v.elems|
        ensures AppliedTo(Collected(Items(schema).value), v.elems[i]) == Fill(Items(schema).value, v.elems[i])
      {
        CollectThenApply(Items(schema).value, v.elems[i]);
      }
      assert AppliedTo(Collected(schema), v).elems == Fill(schema, v).elems;
    }
  }

  function Props(n: Option<Node>): map<string, Node> {
    if n.Some? then n.value.props else map[]
  }

  lemma PropsCollected(schema: Json)
    ensures var subs := Properties(schema);
            && (forall k :: k in Props(Collected(schema)) <==> k in subs && Child(subs[k]).Some?)
            && (forall k :: k in Props(Collected(schema)) ==> Props(Collected(schema))[k] == Child(subs[k]).value)
  {
  }

  lemma FieldsAgree(n: Option<Node>, schema: Json, fields: map<string, Json>)
    requires var subs := Properties(schema);
             && (forall k :: k in Props(n) <==> k in subs && Child(subs[k]).Some?)
             && (forall k :: k in Props(n) ==> Props(n)[k] == Child(subs[k]).value)
             && (forall k :: k in subs && k in fields ==>
                               AppliedTo(Child(subs[k]), fields[k]) == Fill(subs[k], fields[k]))
             && (forall k :: k in subs ==>
                               Declared(subs[k]) == if Child(subs[k]).Some? then Child(subs[k]).value.value else Null)
    ensures AppliedTo(n, Obj(fields)) == Fill(schema, Obj(fields))
  {
    hide Properties, Child, Declared;
    var subs := Properties(schema);
    var a, b := AppliedTo(n, Obj(fields)), Fill(schema, Obj(fields));
    forall k
      ensures (k in a.fields <==> k in b.fields) && (k in a.fields ==> a.fields[k] == b.fields[k])
    {
    }
    assert a.fields == b.fields;
  }

  /** A node's own value matters to its parent only. */
  lemma ValueIsForTheParent(sub: Json, v: Json)
    ensures AppliedTo(Child(sub), v) == AppliedTo(Collected(sub), v)
  {
  }

  lemma ChildCarriesDefault(sub: Json)
    ensures if Child(sub).Some? then Child(sub).value.value == Declared(sub) else Declared(sub) == Null
  {
  }

  // ---- what filling does to a document ----

  datatype Step = Key(name: string) | Index(i: nat)

  /** One step down a document. */
  function Down(v: Json, step: Step): Option<Json> {
    match (step, v)
    case (Key(k), Obj(fields)) => if k in fields then Some(fields[k]) else None
    case (Index(i), Arr(elems)) => if i < |elems| then Some(elems[i]) else None
    case _ => None
  }

  /** One step down a schema. */
  function Sub(schema: Json, step: Step): Option<Json> {
    match step
    case Key(k) => if k in Properties(schema) then Some(Properties(schema)[k]) else None
    case Index(_) => Items(schema)
  }

  /** The value at a path of a document. */
  function At(v: Json, path: seq<Step>): Option<Json> {
    if path == [] then Some(v)
    else if Down(v, path[0]).None? then None
    else At(Down(v, path[0]).value, path[1..])
  }

  /** The schema that governs a path. */
  function SchemaAt(schema: Json, path: seq<Step>): Option<Json> {
    if path == [] then Some(schema)
    else if Sub(schema, path[0]).None? then None
    else SchemaAt(Sub(schema, path[0]).value, path[1..])
  }

  /** What filling does one step down. */
  lemma FillDown(schema: Json, v: Json, step: Step)
    ensures var (was, sub, now) := (Down(v, step), Sub(schema, step), Down(Fill(schema, v), step));
            && (was.Some? ==> now == Some(if sub.Some? then Fill(sub.value, was.value) else was.value))
            && (was.None? ==>
                  now == if step.Key? && v.Obj? && sub.Some? && Declared(sub.value) != Null
                         then Some(Declared(sub.value))
                         else None)
  {
  }

  predicate SameKind(a: Json, b: Json) {
    match a
    case Obj(_) => b.Obj?
    case Arr(elems) => b.Arr? && |b.elems| == |elems|
    case _ => a == b
  }

  lemma FillKeepsKind(schema: Json, v: Json)
    ensures SameKind(v, v) && SameKind(v, Fill(schema, v))
  {
  }

  /** Every authored value is still there, at the same path. */
  lemma {:induction false} AuthoredIsKept(schema: Json, v: Json, path: seq<Step>)
    requires At(v, path).Some?
    ensures At(Fill(schema, v), path).Some? && SameKind(At(v, path).value, At(Fill(schema, v), path).value)
    decreases path
  {
    hide Fill, Down, Sub, SameKind, Declared;
    if path == [] {
      FillKeepsKind(schema, v);
    } else {
      FillDown(schema, v, path[0]);
      if Sub(schema, path[0]).Some? {
        AuthoredIsKept(Sub(schema, path[0]).value, Down(v, path[0]).value, path[1..]);
      } else {
        FillKeepsKind(schema, At(v, path).value);
      }
    }
  }

  /** The first `i` steps lead to an authored object that lacks the next field, and the schema
      declares a default for that field. */
  ghost predicate Lacks(schema: Json, v: Json, path: seq<Step>, i: nat) {
    && i < |path| && path[i].Key?
    && At(v, path[..i]).Some? && At(v, path[..i]).value.Obj? && path[i].name !in At(v, path[..i]).value.fields
    && SchemaAt(schema, path[..i + 1]).Some?
    && Declared(SchemaAt(schema, path[..i + 1]).value) != Null
  }

  lemma LacksDown(schema: Json, v: Json, path: seq<Step>, j: nat)
    requires path != [] && Down(v, path[0]).Some?
    ensures Lacks(schema, v, path, j + 1) <==>
            Sub(schema, path[0]).Some? && Lacks(Sub(schema, path[0]).value, Down(v, path[0]).value, path[1..], j)
  {
    hide Down, Sub, Declared;
    if j + 1 < |path| {
      TailPrefix(path, j);
      TailPrefix(path, j + 1);
    }
  }

  lemma LacksHere(schema: Json, v: Json, path: seq<Step>)
    requires path != []
    ensures Lacks(schema, v, path, 0) <==>
            && path[0].Key? && v.Obj? && Down(v, path[0]).None?
            && Sub(schema, path[0]).Some? && Declared(Sub(schema, path[0]).value) != Null
    ensures SchemaAt(schema, path[..1]) == Sub(schema, path[0])
  {
  }

  lemma TailPrefix(path: seq<Step>, j: nat)
    requires j < |path|
    ensures path[..j + 1] != [] && path[..j + 1][0] == path[0] && path[..j + 1][1..] == path[1..][..j]
  {
  }

  /** Nothing is conjured: what the author did not write lies inside a declared default of a field
      missing from an object the author did write. */
  lemma {:induction false} NothingIsConjured(schema: Json, v: Json, path: seq<Step>) returns (i: nat)
    requires At(Fill(schema, v), path).Some? && At(v, path).None?
    ensures Lacks(schema, v, path, i)
    decreases path
  {
    hide Fill, Down, Sub, Declared, Lacks;
    FillDown(schema, v, path[0]);
    if Down(v, path[0]).None? {
      LacksHere(schema, v, path);
      i := 0;
    } else {
      var j := NothingIsConjured(Sub(schema, path[0]).value, Down(v, path[0]).value, path[1..]);
      LacksDown(schema, v, path, j);
      i := j + 1;
    }
  }

  /** And every such field now holds its declared default. */
  lemma {:induction false} DeclaredIsSupplied(schema: Json, v: Json, path: seq<Step>, i: nat)
    requires Lacks(schema, v, path, i)
    ensures At(Fill(schema, v), path[..i + 1]) == Some(Declared(SchemaAt(schema, path[..i + 1]).value))
    decreases i
  {
    hide Fill, Down, Sub, Declared;
    FillDown(schema, v, path[0]);
    if i == 0 {
      LacksHere(schema, v, path);
      assert path[..1] == [path[0]] && path[..1][1..] == [];
    } else {
      TailPrefix(path, i);
      TailPrefix(path, i - 1);
      LacksDown(schema, v, path, i - 1);
      DeclaredIsSupplied(Sub(schema, path[0]).value, Down(v, path[0]).value, path[1..], i - 1);
    }
  }

  // ---- the walks the program makes ----

  /** The properties are visited in any order. */
  method Collect(schema: Json) returns (n: Option<Node>)
    ensures n == Collected(schema)
    decreases schema
  {
    var subs := Properties(schema);
    var props: map<string, Node> := map[];
    var names := subs.Keys;
    while names != {}
      invariant names <= subs.Keys
      invariant forall k :: k in props <==> k in subs && k !in names && Child(subs[k]).Some?
      invariant forall k :: k in props ==> props[k] == Child(subs[k]).value
    {
      hide Properties, Collected;
      var name :| name in names;
      var child := Collect(subs[name]);
      var d := Member(subs[name], "default");
      if d.Some? {
        child := Some((if child.Some? then child.value else BARE).(value := d.value));
      }
      if child.Some? {
        props := props[name := child.value];
      }
      names := names - {name};
    }
    var elem := None;
    if Items(schema).Some? {
      elem := Collect(Items(schema).value);
    }
    assert props == map k | k in subs && Child(subs[k]).Some? :: Child(subs[k]).value;
    n := if props == map[] && elem.None? then None else Some(Node(Null, props, elem));
  }

  /** `changed` is exact: it is set if and only if the document differs. */
  method Apply(n: Node, v: Json) returns (out: Json, changed: bool)
    ensures out == Applied(n, v)
    ensures changed <==> out != v
    decreases v, 1
  {
    match v
    case Obj(fields) =>
      var t;
      t, changed := ApplyFields(n, fields, v);
      out := Obj(t);
    case Arr(elems) =>
      if n.elem.None? {
        return v, false;
      }
      var t;
      t, changed := ApplyElems(n.elem.value, elems, v);
      assert Applied(n, v).elems == t;
      out := Arr(t);
    case _ =>
      out, changed := v, false;
  }

  method ApplyFields(n: Node, fields: map<string, Json>, ghost v: Json) returns (t: map<string, Json>, changed: bool)
    requires v == Obj(fields)
    ensures t == Applied(n, Obj(fields)).fields
    ensures changed <==> t != fields
    decreases v, 0
  {
    var names := n.props.Keys;
    t, changed := fields, false;
    while names != {}
      invariant names <= n.props.Keys
      invariant forall k :: k in t <==> k in fields || (k in n.props && k !in names && n.props[k].value != Null)
      invariant forall k :: k in t ==>
                  t[k] == (if k !in fields then n.props[k].value
                           else if k in n.props && k !in names then Applied(n.props[k], fields[k])
                           else fields[k])
      invariant changed <==> t != fields
    {
      var name :| name in names;
      var child := n.props[name];
      if name !in t {
        if child.value != Null {
          t := t[name := child.value];
          changed := true;
        }
      } else {
        var cur, c := Apply(child, fields[name]);
        assert !c ==> t[name := cur] == t;
        t := t[name := cur];
        changed := c || changed;
      }
      names := names - {name};
    }
  }

  method ApplyElems(elem: Node, elems: seq<Json>, ghost v: Json) returns (t: seq<Json>, changed: bool)
    requires v == Arr(elems)
    ensures |t| == |elems| && forall i :: 0 <= i < |t| ==> t[i] == Applied(elem, elems[i])
    ensures changed <==> t != elems
    decreases v, 0
  {
    t, changed := [], false;
    for i := 0 to |elems|
      invariant |t| == i && forall j :: 0 <= j < i ==> t[j] == Applied(elem, elems[j])
      invariant changed <==> t != elems[..i]
    {
      var e, c := Apply(elem, elems[i]);
      assert elems[..i + 1] == elems[..i] + [elems[i]];
      t := t + [e];
      changed := c || changed;
    }
    assert elems[..|elems|] == elems;
  }

  // ---- filling twice ----

  /** No object of the document lacks a field with a declared default. */
  predicate Full(schema: Json, v: Json)
    decreases v
  {
    match v
    case Obj(fields) =>
      var subs := Properties(schema);
      forall k :: k in subs ==> if k in fields then Full(subs[k], fields[k]) else Declared(subs[k]) == Null
    case Arr(elems) =>
      Items(schema).Some? ==> forall i :: 0 <= i < |elems| ==> Full(Items(schema).value, elems[i])
    case _ => true
  }

  /** Every declared default is itself full under the schema that declares it. */
  predicate FullDefaults(schema: Json)
    decreases schema
  {
    var subs := Properties(schema);
    && (forall k :: k in subs ==> Full(subs[k], Declared(subs[k])) && FullDefaults(subs[k]))
    && (Items(schema).Some? ==> FullDefaults(Items(schema).value))
  }

  ghost predicate Idempotent(schema: Json) {
    forall v :: Fill(schema, Fill(schema, v)) == Fill(schema, v)
  }

  /** Filling leaves a document alone exactly when it lacks nothing. */
  lemma {:induction false} UnchangedIffFull(schema: Json, v: Json)
    ensures Fill(schema, v) == v <==> Full(schema, v)
    decreases v
  {
    var subs := Properties(schema);
    if v.Obj? {
      forall k | k in subs && k in v.fields
        ensures Fill(subs[k], v.fields[k]) == v.fields[k] <==> Full(subs[k], v.fields[k])
      {
        UnchangedIffFull(subs[k], v.fields[k]);
      }
      UnchangedFields(schema, v.fields);
    } else if v.Arr? && Items(schema).Some? {
      var item := Items(schema).value;
      forall i | 0 <= i < |v.elems|
        ensures Fill(item, v.elems[i]) == v.elems[i] <==> Full(item, v.elems[i])
      {
        UnchangedIffFull(item, v.elems[i]);
      }
      var f := Fill(schema, v).elems;
      assert f == v.elems <==> forall i :: 0 <= i < |v.elems| ==> f[i] == v.elems[i];
    }
  }

  lemma UnchangedFields(schema: Json, fields: map<string, Json>)
    ensures var subs := Properties(schema);
            Fill(schema, Obj(fields)).fields == fields <==>
            forall k :: k in subs ==>
                          if k in fields then Fill(subs[k], fields[k]) == fields[k] else Declared(subs[k]) == Null
  {
    hide Properties, Declared;
    var subs := Properties(schema);
    var f := Fill(schema, Obj(fields)).fields;
    if f == fields {
      forall k | k in subs
        ensures if k in fields then Fill(subs[k], fields[k]) == fields[k] else Declared(subs[k]) == Null
      {
        assert k in f <==> k in fields || Declared(subs[k]) != Null;
      }
    }
  }

  /** Filling twice is filling once, for every document, exactly when every declared default is
      full: the condition is on the schema alone. */
  lemma IdempotentIff(schema: Json)
    ensures Idempotent(schema) <==> FullDefaults(schema)
  {
    if FullDefaults(schema) {
      forall v
        ensures Fill(schema, Fill(schema, v)) == Fill(schema, v)
      {
        FilledIsFull(schema, v);
        UnchangedIffFull(schema, Fill(schema, v));
      }
    }
    if Idempotent(schema) {
      IdempotentNeedsFullDefaults(schema);
    }
  }

  lemma {:induction false} FilledIsFull(schema: Json, v: Json)
    requires FullDefaults(schema)
    ensures Full(schema, Fill(schema, v))
    decreases v
  {
    var subs := Properties(schema);
    if v.Obj? {
      forall k | k in subs && k in v.fields
        ensures Full(subs[k], Fill(subs[k], v.fields[k]))
      {
        FilledIsFull(subs[k], v.fields[k]);
      }
    } else if v.Arr? && Items(schema).Some? {
      forall i | 0 <= i < |v.elems|
        ensures Full(Items(schema).value, Fill(Items(schema).value, v.elems[i]))
      {
        FilledIsFull(Items(schema).value, v.elems[i]);
      }
    }
  }

  lemma {:induction false} IdempotentNeedsFullDefaults(schema: Json)
    requires Idempotent(schema)
    ensures FullDefaults(schema)
    decreases schema
  {
    var subs := Properties(schema);
    forall k | k in subs
      ensures Full(subs[k], Declared(subs[k])) && FullDefaults(subs[k])
    {
      DefaultIsFull(schema, k);
      forall w
        ensures Fill(subs[k], Fill(subs[k], w)) == Fill(subs[k], w)
      {
        IdempotentField(schema, k, w);
      }
      IdempotentNeedsFullDefaults(subs[k]);
    }
    if Items(schema).Some? {
      var item := Items(schema).value;
      forall w
        ensures Fill(item, Fill(item, w)) == Fill(item, w)
      {
        var v := Arr([w]);
        assert Fill(schema, v).elems[0] == Fill(item, w);
        assert Fill(schema, Fill(schema, v)).elems[0] == Fill(item, Fill(item, w));
      }
      IdempotentNeedsFullDefaults(item);
    }
  }

  lemma DefaultIsFull(schema: Json, k: string)
    requires Idempotent(schema) && k in Properties(schema)
    ensures Full(Properties(schema)[k], Declared(Properties(schema)[k]))
  {
    hide Properties, Declared;
    var sub := Properties(schema)[k];
    var d := Declared(sub);
    if d != Null {
      var once := Fill(schema, Obj(map[]));
      assert once.fields[k] == d;
      assert Fill(schema, once).fields[k] == Fill(sub, d);
      UnchangedIffFull(sub, d);
    }
  }

  lemma IdempotentField(schema: Json, k: string, w: Json)
    requires Idempotent(schema) && k in Properties(schema)
    ensures var sub := Properties(schema)[k]; Fill(sub, Fill(sub, w)) == Fill(sub, w)
  {
    hide Properties, Declared;
    var sub := Properties(schema)[k];
    var once := Fill(schema, Obj(map[k := w]));
    assert once.fields[k] == Fill(sub, w);
    assert Fill(schema, once).fields[k] == Fill(sub, Fill(sub, w));
  }

  /** A scalar default is always full. */
  lemma ScalarsAreFull(schema: Json, d: Json)
    requires !d.Obj? && !d.Arr?
    ensures Full(schema, d)
  {
  }

  /** An object default with a default of its own inside is completed only by a second pass. */
  lemma ObjectDefaultNeedsTwoPasses(one: Json, inner: Json, outer: Json)
    requires one.Number?
    requires inner == Obj(map["default" := Obj(map[]), "properties" := Obj(map["b" := Obj(map["default" := one])])])
    requires outer == Obj(map["properties" := Obj(map["a" := inner])])
    ensures !Idempotent(outer)
  {
    assert "a" in Properties(outer) && Properties(outer)["a"] == inner;
    assert "b" in Properties(inner) && Declared(Properties(inner)["b"]) == one;
    assert Declared(inner) == Obj(map[]);
    assert !Full(inner, Declared(inner));
    IdempotentIff(outer);
  }
}

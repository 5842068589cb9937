/** The versioned tuple tree (tagger/instance.ts).

    A `Node` is a `VersionedTuple`: an id, the relation schema it belongs to,
    an append-only list of assertions (its `TupleVersion`s), the current
    version, and one `Relation` (a `VersionedRelation`) per child tag of its
    schema. The tree is a value: operations that mutate it in the source
    return the updated tree here.

    Property order follows JavaScript: the relations of a node are kept in the
    order `Object.fromEntries` gives them (first occurrence of each tag), and
    the tuples of a relation in the order a `Record<number, ...>` lists its
    values (array-index ids ascending, then the other ids in insertion
    order). */
module Instance {
  import opened Wrappers
  import Lists

  /** A scalar field of a relation: its display name and the assertion field
      it is bound to. */
  datatype ScalarField = ScalarField(name: string, bind: string)

  /** A `RelationField` schema: its tag, its child relations and its scalar
      fields. */
  datatype Schema = Schema(tag: string, relationFields: seq<Schema>, scalarFields: seq<ScalarField>)

  datatype Value = Str(s: string) | Num(n: int)

  /** An assertion about one tuple. `valid_to == 0` is JavaScript-falsy;
      every other field an assertion carries is in `fields`. */
  datatype Assertion = Assertion(assertionId: int, validFrom: int, validTo: int, fields: map<string, Value>)

  datatype Node = Node(
    id: int,
    schema: Schema,
    versions: seq<Assertion>,
    current: Option<Assertion>,
    relations: seq<Relation>)

  datatype Relation = Relation(schema: Schema, tuples: seq<Node>)

  datatype InstanceError =
    | EmptyPath
    | UnknownTag(tag: string)
    | ValidFromChainBroken
    | TimeTravel
    | MultipleTuplesFound(id: int)
    | RequiredTupleNotFound(id: int)

  // ---------------------------------------------------------------------------
  // Construction (instance.ts:199-204)
  // ---------------------------------------------------------------------------

  function Tags(rs: seq<Relation>): (tags: seq<string>)
    ensures |tags| == |rs|
    ensures forall i :: 0 <= i < |rs| ==> tags[i] == rs[i].schema.tag
  {
    if |rs| == 0 then [] else Tags(rs[..|rs| - 1]) + [rs[|rs| - 1].schema.tag]
  }

  function FieldTags(fs: seq<Schema>): (tags: seq<string>)
    ensures |tags| == |fs|
    ensures forall i :: 0 <= i < |fs| ==> tags[i] == fs[i].tag
  {
    if |fs| == 0 then [] else FieldTags(fs[..|fs| - 1]) + [fs[|fs| - 1].tag]
  }

  /** Index of the relation with tag `tag`, if any: the lookup
      `childRelations[tag]`. */
  function RelationIndex(rs: seq<Relation>, tag: string): (r: Option<nat>)
    ensures r.None? <==> tag !in Tags(rs)
    ensures r.Some? ==> r.value < |rs| && rs[r.value].schema.tag == tag
    ensures r.Some? ==> forall i :: 0 <= i < r.value ==> rs[i].schema.tag != tag
  {
    if |rs| == 0 then None
    else if rs[0].schema.tag == tag then Some(0)
    else match RelationIndex(rs[1..], tag)
      case None => None
      case Some(i) => Some(i + 1)
  }

  predicate DistinctTags(rs: seq<Relation>) {
    forall i, j :: 0 <= i < j < |rs| ==> rs[i].schema.tag != rs[j].schema.tag
  }

  function RelationEntries(fields: seq<Schema>): (es: seq<(string, Relation)>)
    ensures |es| == |fields|
    ensures forall i :: 0 <= i < |es| ==> es[i] == (fields[i].tag, Relation(fields[i], []))
  {
    seq(|fields|, i requires 0 <= i < |fields| => (fields[i].tag, Relation(fields[i], [])))
  }

  /** `Object.fromEntries(schema.relationFields.map(r => [r.tag, new VersionedRelation(r, this)]))`,
      listed in property order. */
  function ChildRelations(fields: seq<Schema>): seq<Relation> {
    Lists.Values(Lists.FromEntries(RelationEntries(fields)))
  }

  /** `field` is the last element of `fields` with its tag. */
  predicate LastWithTag(fields: seq<Schema>, field: Schema) {
    exists k :: 0 <= k < |fields| && fields[k] == field
      && forall j :: k < j < |fields| ==> fields[j].tag != field.tag
  }

  /** A new tuple has one empty relation per distinct child tag, in order of
      first occurrence; when tags repeat, the last field with the tag wins. */
  lemma ChildRelationsShape(fields: seq<Schema>)
    ensures var rs := ChildRelations(fields);
      && DistinctTags(rs)
      && Tags(rs) == Lists.Dedup(FieldTags(fields))
      && (forall i :: 0 <= i < |rs| ==> rs[i].tuples == [] && LastWithTag(fields, rs[i].schema))
  {
    var es := RelationEntries(fields);
    var obj := Lists.FromEntries(es);
    var rs := ChildRelations(fields);
    forall i | 0 <= i < |rs|
      ensures obj[i].0 == rs[i].schema.tag && rs[i].tuples == [] && LastWithTag(fields, rs[i].schema)
    {
      ChildRelationAt(fields, i);
    }
    assert Lists.Keys(es) == FieldTags(fields);
    assert Tags(rs) == Lists.Keys(obj);
  }

  lemma ChildRelationAt(fields: seq<Schema>, i: nat)
    requires i < |Lists.FromEntries(RelationEntries(fields))|
    ensures var e := Lists.FromEntries(RelationEntries(fields))[i];
      e.0 == e.1.schema.tag && e.1.tuples == [] && LastWithTag(fields, e.1.schema)
  {
    var es := RelationEntries(fields);
    var k := Lists.FromEntriesSource(es, i);
    LastRelationEntry(fields, es, k);
  }

  /** An entry no later entry shares a key with comes from the last field
      with its tag. */
  lemma LastRelationEntry(fields: seq<Schema>, es: seq<(string, Relation)>, k: nat)
    requires es == RelationEntries(fields) && k < |es|
    requires forall j :: k < j < |es| ==> es[j].0 != es[k].0
    ensures es[k].0 == es[k].1.schema.tag && es[k].1.tuples == [] && LastWithTag(fields, es[k].1.schema)
  {
    forall j | k < j < |fields|
      ensures fields[j].tag != fields[k].tag
    {
      assert es[j].0 == fields[j].tag;
    }
    assert fields[k] == es[k].1.schema;
  }

  /** `new VersionedTuple(schema, id)`. */
  function NewTuple(schema: Schema, id: int): (n: Node)
    ensures n.id == id && n.schema == schema
    ensures n.versions == [] && n.current == None
    ensures DistinctTags(n.relations)
    ensures Tags(n.relations) == Lists.Dedup(FieldTags(schema.relationFields))
    ensures forall i :: 0 <= i < |n.relations| ==>
      n.relations[i].tuples == [] && LastWithTag(schema.relationFields, n.relations[i].schema)
  {
    ChildRelationsShape(schema.relationFields);
    Node(id, schema, [], None, ChildRelations(schema.relationFields))
  }

  // ---------------------------------------------------------------------------
  // Tuples of a relation: a Record<number, VersionedTuple> (instance.ts:323-336)
  // ---------------------------------------------------------------------------

  /** Ids that JavaScript lists first, ascending: canonical array indices. */
  predicate IsArrayIndex(id: int) {
    0 <= id < 0xFFFF_FFFF
  }

  /** The tuples are in the order `Object.values` lists a record's values. */
  predicate InPropertyOrder(ts: seq<Node>) {
    forall i, j :: 0 <= i < j < |ts| && IsArrayIndex(ts[j].id) ==>
      IsArrayIndex(ts[i].id) && ts[i].id < ts[j].id
  }

  predicate DistinctIds(ts: seq<Node>) {
    forall i, j :: 0 <= i < j < |ts| ==> ts[i].id != ts[j].id
  }

  function Ids(ts: seq<Node>): (ids: seq<int>)
    ensures |ids| == |ts|
    ensures forall i :: 0 <= i < |ts| ==> ids[i] == ts[i].id
  {
    if |ts| == 0 then [] else Ids(ts[..|ts| - 1]) + [ts[|ts| - 1].id]
  }

  /** Index of the tuple with id `id`, if any: the lookup `tuples[id]`. */
  function TupleIndex(ts: seq<Node>, id: int): (r: Option<nat>)
    ensures r.None? <==> id !in Ids(ts)
    ensures r.Some? ==> r.value < |ts| && ts[r.value].id == id
    ensures r.Some? ==> forall i :: 0 <= i < r.value ==> ts[i].id != id
  {
    if |ts| == 0 then None
    else if ts[0].id == id then Some(0)
    else match TupleIndex(ts[1..], id)
      case None => None
      case Some(i) => Some(i + 1)
  }

  /** `tuples[id]`. */
  function Lookup(ts: seq<Node>, id: int): (r: Option<Node>)
    ensures r.None? <==> id !in Ids(ts)
    ensures r.Some? ==> r.value in ts && r.value.id == id
  {
    match TupleIndex(ts, id)
    case Some(i) => Some(ts[i])
    case None => None
  }

  /** Where JavaScript lists a new key `id` among the keys of `ts`. */
  function InsertPosition(ts: seq<Node>, id: int): (p: nat)
    ensures p <= |ts|
    ensures !IsArrayIndex(id) ==> p == |ts|
    ensures IsArrayIndex(id) ==> forall i :: 0 <= i < p ==> IsArrayIndex(ts[i].id) && ts[i].id <= id
    ensures IsArrayIndex(id) && p < |ts| ==> !IsArrayIndex(ts[p].id) || id < ts[p].id
  {
    if !IsArrayIndex(id) then |ts|
    else if |ts| == 0 || !IsArrayIndex(ts[0].id) || id < ts[0].id then 0
    else 1 + InsertPosition(ts[1..], id)
  }

  /** Adds a tuple under a new id where JavaScript will list it. */
  function InsertTuple(ts: seq<Node>, n: Node): (r: seq<Node>)
    requires InPropertyOrder(ts) && DistinctIds(ts) && n.id !in Ids(ts)
    ensures InPropertyOrder(r) && DistinctIds(r)
    ensures |r| == |ts| + 1
    ensures forall m :: m in r <==> m == n || m in ts
    ensures r == InsertAt(ts, InsertPosition(ts, n.id), n)
    ensures !IsArrayIndex(n.id) ==> r == ts + [n]
  {
    var p := InsertPosition(ts, n.id);
    InsertKeepsOrder(ts, n, p);
    InsertAtMembers(ts, n, p);
    InsertAt(ts, p, n)
  }

  /** Placing `n` adds exactly `n`; placing it at the end appends it. */
  lemma InsertAtMembers(ts: seq<Node>, n: Node, p: nat)
    requires p <= |ts|
    ensures forall m :: m in InsertAt(ts, p, n) <==> m == n || m in ts
    ensures p == |ts| ==> InsertAt(ts, p, n) == ts + [n]
  {
    assert ts == ts[..p] + ts[p..];
  }

  lemma InsertKeepsOrder(ts: seq<Node>, n: Node, p: nat)
    requires InPropertyOrder(ts) && DistinctIds(ts) && n.id !in Ids(ts)
    requires p == InsertPosition(ts, n.id)
    ensures InPropertyOrder(InsertAt(ts, p, n)) && DistinctIds(InsertAt(ts, p, n))
  {
    var r := InsertAt(ts, p, n);
    forall i | 0 <= i < |ts|
      ensures ts[i].id != n.id
    {
      assert Ids(ts)[i] == ts[i].id;
    }
    forall i, j | 0 <= i < j < |r| && IsArrayIndex(r[j].id)
      ensures IsArrayIndex(r[i].id) && r[i].id < r[j].id
    {
      InsertPairOrdered(ts, n, p, i, j);
    }
    forall i, j | 0 <= i < j < |r|
      ensures r[i].id != r[j].id
    {
      InsertPairDistinct(ts, n, p, i, j);
    }
  }

  /** `ts` with `n` placed at position `p`. */
  function InsertAt(ts: seq<Node>, p: nat, n: Node): (r: seq<Node>)
    requires p <= |ts|
    ensures |r| == |ts| + 1
    ensures forall k :: 0 <= k < |r| ==> r[k] == if k < p then ts[k] else if k == p then n else ts[k - 1]
  {
    ts[..p] + [n] + ts[p..]
  }

  lemma InsertPairOrdered(ts: seq<Node>, n: Node, p: nat, i: nat, j: nat)
    requires InPropertyOrder(ts) && forall k :: 0 <= k < |ts| ==> ts[k].id != n.id
    requires p == InsertPosition(ts, n.id)
    requires i < j < |ts| + 1 && IsArrayIndex(InsertAt(ts, p, n)[j].id)
    ensures var r := InsertAt(ts, p, n);
      IsArrayIndex(r[i].id) && r[i].id < r[j].id
  {
    var r := InsertAt(ts, p, n);
    if j == p {
      assert r[i].id == ts[i].id;
    } else if i == p {
      assert r[j].id == ts[j - 1].id;
      InsertedBeforeLater(ts, n, p, j - 1);
    } else if j < p {
      OrderedPair(ts, i, j);
    } else if i < p {
      OrderedPair(ts, i, j - 1);
    } else {
      OrderedPair(ts, i - 1, j - 1);
    }
  }

  lemma OrderedPair(ts: seq<Node>, i: nat, j: nat)
    requires InPropertyOrder(ts) && i < j < |ts| && IsArrayIndex(ts[j].id)
    ensures IsArrayIndex(ts[i].id) && ts[i].id < ts[j].id
  {
  }

  lemma InsertedBeforeLater(ts: seq<Node>, n: Node, p: nat, j: nat)
    requires InPropertyOrder(ts) && forall k :: 0 <= k < |ts| ==> ts[k].id != n.id
    requires p == InsertPosition(ts, n.id)
    requires p <= j < |ts| && IsArrayIndex(ts[j].id)
    ensures IsArrayIndex(n.id) && n.id < ts[j].id
  {
    assert IsArrayIndex(n.id);
    if p < j {
      assert IsArrayIndex(ts[p].id) && ts[p].id < ts[j].id;
    }
  }

  lemma InsertPairDistinct(ts: seq<Node>, n: Node, p: nat, i: nat, j: nat)
    requires DistinctIds(ts) && forall k :: 0 <= k < |ts| ==> ts[k].id != n.id
    requires p <= |ts| && i < j < |ts| + 1
    ensures var r := InsertAt(ts, p, n);
      r[i].id != r[j].id
  {
    var r := InsertAt(ts, p, n);
    var i' := if i < p then i else i - 1;
    var j' := if j < p then j else j - 1;
    if i == p {
      assert r[i] == n && r[j] == ts[j'];
    } else if j == p {
      assert r[j] == n && r[i] == ts[i'];
    } else {
      assert r[i] == ts[i'] && r[j] == ts[j'] && i' < j';
    }
  }

  /** In a record with distinct ids, `tuples[id]` is the one tuple with that id. */
  lemma LookupDistinct(ts: seq<Node>, id: int, m: Node)
    requires DistinctIds(ts)
    ensures Lookup(ts, id) == Some(m) <==> m in ts && m.id == id
  {
    if m in ts && m.id == id {
      var k :| 0 <= k < |ts| && ts[k] == m;
      assert Ids(ts)[k] == id;
    }
  }

  /** `tuples[n.id] = n`. */
  function Upsert(ts: seq<Node>, n: Node): (r: seq<Node>)
    requires InPropertyOrder(ts) && DistinctIds(ts)
    ensures InPropertyOrder(r) && DistinctIds(r)
    ensures forall m :: m in r <==> m == n || (m in ts && m.id != n.id)
    ensures n.id in Ids(ts) ==> |r| == |ts|
    ensures n.id !in Ids(ts) ==> |r| == |ts| + 1
    ensures forall i :: 0 <= i < |ts| && ts[i].id == n.id ==> r == ts[i := n]
    ensures n.id !in Ids(ts) ==> r == InsertTuple(ts, n)
  {
    match TupleIndex(ts, n.id)
    case Some(i) =>
      ReplaceFacts(ts, n, i);
      ts[i := n]
    case None =>
      NotInIds(ts, n.id);
      InsertFacts(ts, n, InsertPosition(ts, n.id));
      InsertTuple(ts, n)
  }

  lemma ReplaceFacts(ts: seq<Node>, n: Node, i: nat)
    requires InPropertyOrder(ts) && DistinctIds(ts)
    requires i < |ts| && ts[i].id == n.id
    ensures var r := ts[i := n];
      && InPropertyOrder(r) && DistinctIds(r)
      && (forall m :: m in r <==> m == n || (m in ts && m.id != n.id))
  {
    var r := ts[i := n];
    assert forall k :: 0 <= k < |r| ==> r[k].id == ts[k].id;
    forall m | m in ts && m.id == n.id
      ensures m == ts[i]
    {
      var k :| 0 <= k < |ts| && ts[k] == m;
    }
    forall m | m in r
      ensures m == n || m in ts
    {
      var k :| 0 <= k < |r| && r[k] == m;
      if k != i {
        assert m == ts[k];
      }
    }
    forall m | m in ts && m.id != n.id
      ensures m in r
    {
      var k :| 0 <= k < |ts| && ts[k] == m;
      assert r[k] == m;
    }
  }

  lemma InsertFacts(ts: seq<Node>, n: Node, p: nat)
    requires p <= |ts| && forall k :: 0 <= k < |ts| ==> ts[k].id != n.id
    ensures forall m :: m in InsertAt(ts, p, n) <==> m == n || (m in ts && m.id != n.id)
  {
    assert ts == ts[..p] + ts[p..];
  }

  lemma NotInIds(ts: seq<Node>, id: int)
    requires id !in Ids(ts)
    ensures forall k :: 0 <= k < |ts| ==> ts[k].id != id
  {
    forall k | 0 <= k < |ts|
      ensures ts[k].id != id
    {
      assert Ids(ts)[k] == ts[k].id;
    }
  }

  /** Upserting changes the lookup of the upserted id only. */
  lemma UpsertLookup(ts: seq<Node>, n: Node, id: int)
    requires InPropertyOrder(ts) && DistinctIds(ts)
    ensures Lookup(Upsert(ts, n), id) == if id == n.id then Some(n) else Lookup(ts, id)
  {
    var r := Upsert(ts, n);
    LookupDistinct(r, id, n);
    match Lookup(r, id)
    case Some(m) =>
      LookupDistinct(r, id, m);
      LookupDistinct(ts, id, m);
    case None =>
      match Lookup(ts, id)
      case Some(m) =>
        LookupDistinct(ts, id, m);
        LookupDistinct(r, id, m);
      case None =>
  }

  // ---------------------------------------------------------------------------
  // Tuple versions (instance.ts:268-297, 347-368)
  // ---------------------------------------------------------------------------

  /** `mostRecentTuple`: the last version, if any. */
  function MostRecent(n: Node): (r: Option<Assertion>)
    ensures r.None? <==> n.versions == []
    ensures r.Some? ==> r.value == n.versions[|n.versions| - 1]
  {
    if |n.versions| == 0 then None else Some(n.versions[|n.versions| - 1])
  }

  /** `TupleVersion.isCurrent`. */
  predicate IsCurrent(a: Assertion, endTime: int) {
    a.validTo == endTime
  }

  /** The check at instance.ts:274-287 between the latest version and a new
      one, as written: a truthy `valid_to` must be continued exactly; a
      falsy one rejects any new `valid_from` that is not earlier. */
  function TemporalCheck(prior: Assertion, a: Assertion): (r: Option<InstanceError>)
    ensures r.None? <==> (if prior.validTo != 0 then a.validFrom == prior.validTo
                          else a.validFrom < prior.validFrom)
  {
    if prior.validTo != 0 then
      (if a.validFrom != prior.validTo then Some(ValidFromChainBroken) else None)
    else if prior.validFrom <= a.validFrom then Some(TimeTravel)
    else None
  }

  /** Every version passed the check against the one before it. */
  predicate ChainOk(vs: seq<Assertion>) {
    forall i :: 0 < i < |vs| ==> TemporalCheck(vs[i - 1], vs[i]).None?
  }

  /** `applyAssertion`. */
  function ApplyAssertion(n: Node, a: Assertion, endTime: int): (r: Result<Node, InstanceError>)
    ensures n.versions == [] ==> r.Success?
    ensures ChainOk(n.versions) ==> (r.Success? <==> ChainOk(n.versions + [a]))
    ensures r.Success? ==> r.value.versions == n.versions + [a] && MostRecent(r.value) == Some(a)
    ensures r.Success? ==> r.value.current == if IsCurrent(a, endTime) then Some(a) else n.current
    ensures r.Success? ==> r.value.id == n.id && r.value.schema == n.schema
                           && r.value.relations == n.relations
    ensures r.Failure? ==> r.error == ValidFromChainBroken || r.error == TimeTravel
  {
    ChainExtend(n.versions, a);
    match MostRecent(n)
    case Some(prior) =>
      (match TemporalCheck(prior, a)
       case Some(e) => Failure(e)
       case None => Success(Append(n, a, endTime)))
    case None => Success(Append(n, a, endTime))
  }

  function Append(n: Node, a: Assertion, endTime: int): Node {
    n.(versions := n.versions + [a], current := if IsCurrent(a, endTime) then Some(a) else n.current)
  }

  /** The current version described from the history alone: the latest
      version whose `valid_to` is `END_TIME`, or none when no version is. */
  predicate LatestCurrent(n: Node, endTime: int) {
    && (n.current.None? <==> forall i :: 0 <= i < |n.versions| ==> !IsCurrent(n.versions[i], endTime))
    && (n.current.Some? ==> exists i :: (0 <= i < |n.versions| && n.versions[i] == n.current.value
                                         && IsCurrent(n.versions[i], endTime)
                                         && forall j :: i < j < |n.versions| ==> !IsCurrent(n.versions[j], endTime)))
  }

  /** Every accepted assertion keeps the current version the latest one
      that is current. A new node, with no versions and no current version,
      starts out that way. */
  lemma {:induction false} ApplyKeepsLatestCurrent(n: Node, a: Assertion, endTime: int)
    requires LatestCurrent(n, endTime)
    requires ApplyAssertion(n, a, endTime).Success?
    ensures LatestCurrent(ApplyAssertion(n, a, endTime).value, endTime)
  {
    var r := ApplyAssertion(n, a, endTime).value;
    var vs := n.versions;
    assert r.versions == vs + [a];
    if IsCurrent(a, endTime) {
      assert r.versions[|vs|] == a;
    } else if n.current.Some? {
      var i :| 0 <= i < |vs| && vs[i] == n.current.value && IsCurrent(vs[i], endTime)
        && forall j :: i < j < |vs| ==> !IsCurrent(vs[j], endTime);
      assert r.versions[i] == vs[i];
      forall j | i < j < |r.versions|
        ensures !IsCurrent(r.versions[j], endTime)
      {
        if j < |vs| { assert r.versions[j] == vs[j]; }
      }
    } else {
      forall j | 0 <= j < |r.versions|
        ensures !IsCurrent(r.versions[j], endTime)
      {
        if j < |vs| { assert r.versions[j] == vs[j]; }
      }
    }
  }

  /** Extending a checked history checks only the new last pair. */
  lemma ChainExtend(vs: seq<Assertion>, a: Assertion)
    ensures ChainOk(vs) ==> (ChainOk(vs + [a]) <==> vs == [] || TemporalCheck(vs[|vs| - 1], a).None?)
  {
    var ws := vs + [a];
    if ChainOk(vs) && |vs| > 0 && TemporalCheck(vs[|vs| - 1], a).None? {
      forall i | 0 < i < |ws|
        ensures TemporalCheck(ws[i - 1], ws[i]).None?
      {
        if i < |vs| {
          assert ws[i - 1] == vs[i - 1] && ws[i] == vs[i];
        }
      }
    }
    if |vs| > 0 && ChainOk(ws) {
      assert ws[|vs| - 1] == vs[|vs| - 1] && ws[|vs|] == a;
    }
  }

  // ---------------------------------------------------------------------------
  // Well-formed trees
  // ---------------------------------------------------------------------------

  /** What every reachable tree satisfies: one relation per distinct child
      tag of the schema, and in each relation a JavaScript record of tuples
      of that relation's schema. */
  predicate WellFormed(n: Node)
    decreases n
  {
    && DistinctTags(n.relations)
    && Tags(n.relations) == Lists.Dedup(FieldTags(n.schema.relationFields))
    && forall i :: 0 <= i < |n.relations| ==> RelationWellFormed(n.relations[i])
  }

  predicate RelationWellFormed(r: Relation)
    decreases r
  {
    && InPropertyOrder(r.tuples)
    && DistinctIds(r.tuples)
    && forall j :: 0 <= j < |r.tuples| ==> r.tuples[j].schema == r.schema && WellFormed(r.tuples[j])
  }

  lemma NewTupleWellFormed(schema: Schema, id: int)
    ensures WellFormed(NewTuple(schema, id))
  {
    var n := NewTuple(schema, id);
    forall i | 0 <= i < |n.relations|
      ensures RelationWellFormed(n.relations[i])
    {
      assert n.relations[i].tuples == [];
    }
  }

  // ---------------------------------------------------------------------------
  // Path traversal (instance.ts:206-232)
  // ---------------------------------------------------------------------------

  /** What is done with the tuple at the end of a path: nothing
      (`getVersionedTupleByPath`) or an assertion (`applyAssertionByPath`). */
  datatype PathOp = Get | Apply(assertion: Assertion)

  /** The tree after a traversal, and the tuple reached or the error raised. */
  datatype Step = Step(tree: Node, result: Result<Node, InstanceError>)

  function Visit(n: Node, op: PathOp, endTime: int): (s: Step)
    ensures s.tree.id == n.id && s.tree.schema == n.schema && s.tree.relations == n.relations
    ensures s.result.Success? ==> s.result.value == s.tree
    ensures s.result.Failure? ==> s.tree == n && !IsPathError(s.result.error)
    ensures op.Get? ==> s == Step(n, Success(n))
  {
    match op
    case Get => Step(n, Success(n))
    case Apply(a) =>
      match ApplyAssertion(n, a, endTime)
      case Success(m) => Step(m, Success(m))
      case Failure(e) => Step(n, Failure(e))
  }

  /** The tuple `path[0].1` of relation `path[0].0`, created if missing. */
  function ChildAt(rel: Relation, id: int): (c: Node)
    requires RelationWellFormed(rel)
    ensures c.id == id && c.schema == rel.schema && WellFormed(c)
    ensures Lookup(rel.tuples, id).Some? ==> c == Lookup(rel.tuples, id).value
    ensures Lookup(rel.tuples, id).None? ==> c == NewTuple(rel.schema, id)
  {
    match Lookup(rel.tuples, id)
    case Some(c) => MemberWellFormed(rel, c); c
    case None => NewTupleWellFormed(rel.schema, id); NewTuple(rel.schema, id)
  }

  /** Every tuple of a well-formed relation is well formed and has the
      relation's schema. */
  lemma MemberWellFormed(rel: Relation, c: Node)
    requires RelationWellFormed(rel) && c in rel.tuples
    ensures c.schema == rel.schema && WellFormed(c)
  {
    var j :| 0 <= j < |rel.tuples| && rel.tuples[j] == c;
  }

  /** `getVersionedTupleByPath(path)` followed by `op` on the tuple reached.
      Tuples created on the way stay in the tree whatever happens after. */
  function Walk(t: Node, path: seq<(string, int)>, op: PathOp, endTime: int): (s: Step)
    requires WellFormed(t)
    ensures WellFormed(s.tree)
    ensures s.tree.id == t.id && s.tree.schema == t.schema && Tags(s.tree.relations) == Tags(t.relations)
    ensures path == [] ==> s == Step(t, Failure(EmptyPath))
    decreases |path|
  {
    if |path| == 0 then Step(t, Failure(EmptyPath))
    else
      var tag := path[0].0;
      var id := path[0].1;
      match RelationIndex(t.relations, tag)
      case None => Step(t, Failure(UnknownTag(tag)))
      case Some(ri) =>
        var rel := t.relations[ri];
        var child := ChildAt(rel, id);
        var inner := if |path| == 1 then Visit(child, op, endTime) else Walk(child, path[1..], op, endTime);
        Step(Graft(t, ri, inner.tree), inner.result)
  }

  /** `t` with `n` stored as `childRelations[..].tuples[n.id]` of relation `ri`. */
  function Graft(t: Node, ri: nat, n: Node): (r: Node)
    requires WellFormed(t) && ri < |t.relations|
    requires WellFormed(n) && n.schema == t.relations[ri].schema
    ensures WellFormed(r)
    ensures r.id == t.id && r.schema == t.schema && Tags(r.relations) == Tags(t.relations)
    ensures n in r.relations[ri].tuples && r.relations[ri].schema == t.relations[ri].schema
    ensures var rel := t.relations[ri];
      RelationWellFormed(rel) && r.relations[ri] == Relation(rel.schema, Upsert(rel.tuples, n))
    ensures forall i :: 0 <= i < |r.relations| && i != ri ==> r.relations[i] == t.relations[i]
  {
    var rel := t.relations[ri];
    assert RelationWellFormed(rel);
    var rel' := Relation(rel.schema, Upsert(rel.tuples, n));
    RelationUpdateWellFormed(rel, n);
    TreeUpdateWellFormed(t, ri, rel');
    t.(relations := t.relations[ri := rel'])
  }

  lemma RelationUpdateWellFormed(rel: Relation, n: Node)
    requires RelationWellFormed(rel) && WellFormed(n) && n.schema == rel.schema
    ensures RelationWellFormed(Relation(rel.schema, Upsert(rel.tuples, n)))
  {
    var ts := Upsert(rel.tuples, n);
    forall j | 0 <= j < |ts|
      ensures ts[j].schema == rel.schema && WellFormed(ts[j])
    {
      assert ts[j] in ts;
      if ts[j] != n {
        var k :| 0 <= k < |rel.tuples| && rel.tuples[k] == ts[j];
      }
    }
  }

  lemma TreeUpdateWellFormed(t: Node, ri: nat, rel': Relation)
    requires WellFormed(t) && ri < |t.relations|
    requires rel'.schema == t.relations[ri].schema && RelationWellFormed(rel')
    ensures var t' := t.(relations := t.relations[ri := rel']);
      WellFormed(t') && Tags(t'.relations) == Tags(t.relations)
  {
    var t' := t.(relations := t.relations[ri := rel']);
    assert Tags(t'.relations) == Tags(t.relations);
  }

  /** The tuple a successful traversal reaches is the one the last path
      segment names. */
  lemma {:induction false} WalkReaches(t: Node, path: seq<(string, int)>, op: PathOp, endTime: int)
    requires WellFormed(t)
    ensures var s := Walk(t, path, op, endTime);
      s.result.Success? ==>
        s.result.value.id == path[|path| - 1].1 && s.result.value.schema.tag == path[|path| - 1].0
    decreases |path|
  {
    if |path| > 0 {
      match RelationIndex(t.relations, path[0].0)
      case None =>
      case Some(ri) =>
        var child := ChildAt(t.relations[ri], path[0].1);
        if |path| > 1 {
          var sub := Walk(child, path[1..], op, endTime);
          assert Walk(t, path, op, endTime).result == sub.result;
          WalkReaches(child, path[1..], op, endTime);
          assert path[1..][|path| - 2] == path[|path| - 1];
        } else {
          var leaf := Visit(child, op, endTime);
          assert Walk(t, path, op, endTime).result == leaf.result;
          assert t.relations[ri].schema.tag == path[0].0;
        }
    }
  }


  /** The tuple a path names when every tuple along it is already stored:
      `childRelations[tag].tuples[id]` read segment by segment, creating
      nothing. */
  function LookupPath(t: Node, path: seq<(string, int)>): Option<Node>
    decreases |path|
  {
    if |path| == 0 then None
    else match RelationIndex(t.relations, path[0].0)
      case None => None
      case Some(ri) =>
        match Lookup(t.relations[ri].tuples, path[0].1)
        case None => None
        case Some(c) => if |path| == 1 then Some(c) else LookupPath(c, path[1..])
  }

  /** At every step the path's tag names a child relation of the tuple
      reached so far, that tuple being created when it is missing. */
  predicate ValidPath(t: Node, path: seq<(string, int)>)
    requires WellFormed(t)
    decreases |path|
  {
    && |path| > 0
    && RelationIndex(t.relations, path[0].0).Some?
    && (|path| == 1
        || ValidPath(ChildAt(t.relations[RelationIndex(t.relations, path[0].0).value], path[0].1), path[1..]))
  }

  /** `n` is the tuple `new VersionedTuple(schema, id)` makes. */
  predicate IsNewTuple(n: Node, id: int) {
    n == NewTuple(n.schema, id)
  }

  /** `getVersionedTupleByPath` on a valid path returns a tuple, and leaves
      it stored under the whole path in the resulting tree: the tuples
      missing along the path have been created and kept. */
  lemma {:induction false} WalkSucceeds(t: Node, path: seq<(string, int)>, endTime: int)
    requires WellFormed(t) && ValidPath(t, path)
    ensures var s := Walk(t, path, Get, endTime);
      s.result.Success? && LookupPath(s.tree, path) == Some(s.result.value)
    decreases |path|
  {
    var ri := RelationIndex(t.relations, path[0].0).value;
    var child := ChildAt(t.relations[ri], path[0].1);
    WalkStep(t, path, endTime);
    if |path| > 1 {
      WalkSucceeds(child, path[1..], endTime);
    }
  }

  /** A traversal of a valid path returns the tuple already stored under
      the path, when there is one. */
  lemma {:induction false} WalkFindsStored(t: Node, path: seq<(string, int)>, endTime: int)
    requires WellFormed(t) && ValidPath(t, path)
    ensures var s := Walk(t, path, Get, endTime);
      LookupPath(t, path).Some? ==> s.result == Success(LookupPath(t, path).value)
    decreases |path|
  {
    var ri := RelationIndex(t.relations, path[0].0).value;
    var rel := t.relations[ri];
    var child := ChildAt(rel, path[0].1);
    WalkStep(t, path, endTime);
    LookupPathStep(t, path);
    if |path| > 1 && Lookup(rel.tuples, path[0].1).Some? {
      WalkFindsStored(child, path[1..], endTime);
    }
  }

  /** A traversal of a valid path along which some tuple was missing
      returns a new tuple with the last segment's id. */
  lemma {:induction false} WalkCreatesNew(t: Node, path: seq<(string, int)>, endTime: int)
    requires WellFormed(t) && ValidPath(t, path)
    ensures var s := Walk(t, path, Get, endTime);
      LookupPath(t, path).None? ==> s.result.Success? && IsNewTuple(s.result.value, path[|path| - 1].1)
    decreases |path|, 1
  {
    if |path| == 1 {
      WalkStep(t, path, endTime);
      LookupPathStep(t, path);
    } else {
      WalkCreatesNewBelow(t, path, endTime);
    }
  }

  /** The step of `WalkCreatesNew` for a path of two or more segments. */
  lemma {:induction false} WalkCreatesNewBelow(t: Node, path: seq<(string, int)>, endTime: int)
    requires WellFormed(t) && ValidPath(t, path) && |path| > 1
    ensures var s := Walk(t, path, Get, endTime);
      LookupPath(t, path).None? ==> s.result.Success? && IsNewTuple(s.result.value, path[|path| - 1].1)
    decreases |path|, 0
  {
    var ri := RelationIndex(t.relations, path[0].0).value;
    var rel := t.relations[ri];
    var child := ChildAt(rel, path[0].1);
    var rest := path[1..];
    WalkStep(t, path, endTime);
    LookupPathStep(t, path);
    WalkCreatesNew(child, rest, endTime);
    assert rest[|rest| - 1] == path[|path| - 1];
    if Lookup(rel.tuples, path[0].1).None? {
      NewTupleLooksUpNothing(rel.schema, path[0].1, rest);
    }
  }

  /** One step of a plain traversal: through the tuple the first segment
      names, which the resulting tree stores under that segment. */
  lemma WalkStep(t: Node, path: seq<(string, int)>, endTime: int)
    requires WellFormed(t) && |path| > 0 && RelationIndex(t.relations, path[0].0).Some?
    ensures var child := ChildAt(t.relations[RelationIndex(t.relations, path[0].0).value], path[0].1);
      var s := Walk(t, path, Get, endTime);
      && (|path| == 1 ==> s.result == Success(child) && LookupPath(s.tree, path) == Some(child))
      && (|path| > 1 ==> var inner := Walk(child, path[1..], Get, endTime);
            s.result == inner.result && LookupPath(s.tree, path) == LookupPath(inner.tree, path[1..]))
  {
    var ri := RelationIndex(t.relations, path[0].0).value;
    var child := ChildAt(t.relations[ri], path[0].1);
    var inner := if |path| == 1 then Visit(child, Get, endTime) else Walk(child, path[1..], Get, endTime);
    assert Walk(t, path, Get, endTime) == Step(Graft(t, ri, inner.tree), inner.result);
    GraftedLookup(t, ri, inner.tree, path);
  }

  /** One step of reading a path: through the stored tuple, if there is one. */
  lemma LookupPathStep(t: Node, path: seq<(string, int)>)
    requires WellFormed(t) && |path| > 0 && RelationIndex(t.relations, path[0].0).Some?
    ensures var rel := t.relations[RelationIndex(t.relations, path[0].0).value];
      var child := ChildAt(rel, path[0].1);
      && (Lookup(rel.tuples, path[0].1).None? ==> LookupPath(t, path) == None && IsNewTuple(child, path[0].1))
      && (Lookup(rel.tuples, path[0].1).Some? ==>
            LookupPath(t, path) == if |path| == 1 then Some(child) else LookupPath(child, path[1..]))
  {
  }

  /** After grafting `n` under the first segment of a path, reading the path
      goes through `n`. */
  lemma GraftedLookup(t: Node, ri: nat, n: Node, path: seq<(string, int)>)
    requires WellFormed(t) && |path| > 0 && RelationIndex(t.relations, path[0].0) == Some(ri)
    requires WellFormed(n) && n.schema == t.relations[ri].schema && n.id == path[0].1
    ensures LookupPath(Graft(t, ri, n), path) == if |path| == 1 then Some(n) else LookupPath(n, path[1..])
  {
    var rel := t.relations[ri];
    var t' := Graft(t, ri, n);
    RelationIndexByTags(t.relations, t'.relations, path[0].0);
    UpsertLookup(rel.tuples, n, n.id);
    assert Lookup(t'.relations[ri].tuples, n.id) == Some(n);
  }

  /** A new tuple has no stored children, so no path below it names one. */
  lemma NewTupleLooksUpNothing(schema: Schema, id: int, path: seq<(string, int)>)
    ensures LookupPath(NewTuple(schema, id), path) == None
  {
    var n := NewTuple(schema, id);
    if |path| > 0 {
      match RelationIndex(n.relations, path[0].0)
      case None =>
      case Some(ri) =>
        assert n.relations[ri].tuples == [];
    }
  }

  /** A path step whose tag is not a child relation of the schema raises, and
      leaves the tree as it was. */
  lemma WalkUnknownTag(t: Node, path: seq<(string, int)>, op: PathOp, endTime: int)
    requires WellFormed(t) && |path| > 0 && path[0].0 !in FieldTags(t.schema.relationFields)
    ensures Walk(t, path, op, endTime) == Step(t, Failure(UnknownTag(path[0].0)))
  {
    assert path[0].0 !in Tags(t.relations);
  }

  /** Errors raised while following the path, before any tuple is visited. */
  predicate IsPathError(e: InstanceError) {
    e.EmptyPath? || e.UnknownTag?
  }

  /** Relations with the same tags, in the same order, give every tag the
      same index. */
  lemma RelationIndexByTags(rs: seq<Relation>, rs': seq<Relation>, tag: string)
    requires Tags(rs) == Tags(rs')
    ensures RelationIndex(rs, tag) == RelationIndex(rs', tag)
  {
    var a := RelationIndex(rs, tag);
    if a.Some? {
      forall j | 0 <= j <= a.value
        ensures rs'[j].schema.tag == rs[j].schema.tag
      {
        assert Tags(rs')[j] == Tags(rs)[j];
      }
      FirstTagIndex(rs', tag, a.value);
    }
  }

  /** The index of a tag is its first position. */
  lemma FirstTagIndex(rs: seq<Relation>, tag: string, i: nat)
    requires i < |rs| && rs[i].schema.tag == tag
    requires forall j :: 0 <= j < i ==> rs[j].schema.tag != tag
    ensures RelationIndex(rs, tag) == Some(i)
  {
    assert Tags(rs)[i] == tag;
  }

  /** Upserting a tuple that is already there changes nothing. */
  lemma UpsertPresent(ts: seq<Node>, n: Node)
    requires InPropertyOrder(ts) && DistinctIds(ts) && Lookup(ts, n.id) == Some(n)
    ensures Upsert(ts, n) == ts
  {
  }

  /** After a graft the lookup of the grafted id finds the grafted tuple,
      and grafting it again changes nothing. */
  lemma GraftRevisit(t: Node, ri: nat, n: Node)
    requires WellFormed(t) && ri < |t.relations|
    requires WellFormed(n) && n.schema == t.relations[ri].schema
    ensures var t' := Graft(t, ri, n);
      && ri < |t'.relations| && t'.relations[ri].schema == t.relations[ri].schema
      && ChildAt(t'.relations[ri], n.id) == n && Graft(t', ri, n) == t'
  {
    var rel := t.relations[ri];
    var rel' := Relation(rel.schema, Upsert(rel.tuples, n));
    var t' := Graft(t, ri, n);
    assert t'.relations[ri] == rel';
    UpsertLookup(rel.tuples, n, n.id);
    UpsertPresent(rel'.tuples, n);
    assert t'.relations[ri := rel'] == t'.relations;
  }

  /** Reading a path again finds what the traversal left: the same tree, and
      the same tuple unless a version check refused the assertion. */
  lemma {:induction false} GetAfterWalk(t: Node, path: seq<(string, int)>, op: PathOp, endTime: int)
    requires WellFormed(t)
    ensures var s := Walk(t, path, op, endTime);
      var g := Walk(s.tree, path, Get, endTime);
      && g.tree == s.tree
      && (s.result.Success? || op.Get? || IsPathError(s.result.error) ==> g.result == s.result)
    decreases |path|
  {
    var s := Walk(t, path, op, endTime);
    if |path| > 0 {
      var tag := path[0].0;
      var id := path[0].1;
      match RelationIndex(t.relations, tag)
      case None =>
      case Some(ri) =>
        var rel := t.relations[ri];
        var child := ChildAt(rel, id);
        var inner := if |path| == 1 then Visit(child, op, endTime) else Walk(child, path[1..], op, endTime);
        assert s == Step(Graft(t, ri, inner.tree), inner.result);
        RelationIndexByTags(t.relations, s.tree.relations, tag);
        GraftRevisit(t, ri, inner.tree);
        assert ChildAt(s.tree.relations[ri], id) == inner.tree;
        if |path| > 1 {
          GetAfterWalk(child, path[1..], op, endTime);
        }
    }
  }

  /** `s` is what applying `a` does after the plain traversal `g`: the same
      failure when the traversal fails, the result of `applyAssertion` on the
      tuple reached otherwise, and the traversal's tree when it is refused. */
  predicate GetThenApply(g: Step, s: Step, a: Assertion, endTime: int) {
    && (g.result.Failure? ==> s == g)
    && (g.result.Success? ==> s.result == ApplyAssertion(g.result.value, a, endTime))
    && (s.result.Failure? ==> s.tree == g.tree)
  }

  /** `applyAssertionByPath` is `getVersionedTupleByPath` followed by
      `applyAssertion` on the tuple it returns; a refused assertion leaves
      the tree the plain traversal leaves. */
  lemma {:induction false} ApplyIsGetThenApply(t: Node, path: seq<(string, int)>, a: Assertion, endTime: int)
    requires WellFormed(t)
    ensures GetThenApply(Walk(t, path, Get, endTime), Walk(t, path, Apply(a), endTime), a, endTime)
    decreases |path|
  {
    if |path| > 0 {
      match RelationIndex(t.relations, path[0].0)
      case None =>
      case Some(ri) =>
        var child := ChildAt(t.relations[ri], path[0].1);
        var gi := if |path| == 1 then Visit(child, Get, endTime) else Walk(child, path[1..], Get, endTime);
        var si := if |path| == 1 then Visit(child, Apply(a), endTime) else Walk(child, path[1..], Apply(a), endTime);
        assert Walk(t, path, Get, endTime) == Step(Graft(t, ri, gi.tree), gi.result);
        assert Walk(t, path, Apply(a), endTime) == Step(Graft(t, ri, si.tree), si.result);
        if |path| > 1 {
          ApplyIsGetThenApply(child, path[1..], a, endTime);
        } else {
          VisitGetThenApply(child, a, endTime);
        }
        GraftKeepsGetThenApply(t, ri, gi, si, a, endTime);
    }
  }

  /** At the tuple reached, applying is reading and then applying. */
  lemma VisitGetThenApply(n: Node, a: Assertion, endTime: int)
    ensures GetThenApply(Visit(n, Get, endTime), Visit(n, Apply(a), endTime), a, endTime)
  {
  }

  /** Grafting the two inner steps into the same parent keeps the relation
      between them. */
  lemma GraftKeepsGetThenApply(t: Node, ri: nat, gi: Step, si: Step, a: Assertion, endTime: int)
    requires WellFormed(t) && ri < |t.relations|
    requires WellFormed(gi.tree) && gi.tree.schema == t.relations[ri].schema
    requires WellFormed(si.tree) && si.tree.schema == t.relations[ri].schema
    requires GetThenApply(gi, si, a, endTime)
    ensures GetThenApply(Step(Graft(t, ri, gi.tree), gi.result), Step(Graft(t, ri, si.tree), si.result), a, endTime)
  {
  }

  // ---------------------------------------------------------------------------
  // Traversal and lookup by id (instance.ts:234-266, 333-336)
  // ---------------------------------------------------------------------------

  /** The tuples `forEachVersionedTuple` visits, in order: the tuple itself,
      then the subtrees of its relations' tuples in property order. */
  function Preorder(n: Node): (r: seq<Node>)
    ensures |r| > 0 && r[0] == n
    decreases n
  {
    [n] + PreorderRelations(n.relations)
  }

  function PreorderRelations(rs: seq<Relation>): seq<Node>
    decreases rs
  {
    if |rs| == 0 then [] else PreorderTuples(rs[0].tuples) + PreorderRelations(rs[1..])
  }

  function PreorderTuples(ts: seq<Node>): seq<Node>
    decreases ts
  {
    if |ts| == 0 then [] else Preorder(ts[0]) + PreorderTuples(ts[1..])
  }

  /** A tuple is visited under a node exactly when it is the node or is
      visited under one of the node's child tuples. */
  lemma PreorderMembers(n: Node, m: Node)
    ensures m in Preorder(n) <==>
      m == n || exists i, j :: 0 <= i < |n.relations| && 0 <= j < |n.relations[i].tuples|
                             && m in Preorder(n.relations[i].tuples[j])
  {
    PreorderRelationsMembers(n.relations, m);
    forall i | 0 <= i < |n.relations|
      ensures m in PreorderTuples(n.relations[i].tuples) <==>
        exists j :: 0 <= j < |n.relations[i].tuples| && m in Preorder(n.relations[i].tuples[j])
    {
      PreorderTuplesMembers(n.relations[i].tuples, m);
    }
  }

  lemma {:induction false} PreorderRelationsMembers(rs: seq<Relation>, m: Node)
    ensures m in PreorderRelations(rs) <==> exists i :: 0 <= i < |rs| && m in PreorderTuples(rs[i].tuples)
  {
    if |rs| > 0 {
      PreorderRelationsMembers(rs[1..], m);
      if m in PreorderRelations(rs[1..]) {
        var i :| 0 <= i < |rs[1..]| && m in PreorderTuples(rs[1..][i].tuples);
        assert rs[i + 1] == rs[1..][i];
      }
      if exists i :: 0 <= i < |rs| && m in PreorderTuples(rs[i].tuples) {
        var i :| 0 <= i < |rs| && m in PreorderTuples(rs[i].tuples);
        if i > 0 {
          assert rs[1..][i - 1] == rs[i];
        }
      }
    }
  }

  lemma {:induction false} PreorderTuplesMembers(ts: seq<Node>, m: Node)
    ensures m in PreorderTuples(ts) <==> exists j :: 0 <= j < |ts| && m in Preorder(ts[j])
  {
    if |ts| > 0 {
      PreorderTuplesMembers(ts[1..], m);
      if m in PreorderTuples(ts[1..]) {
        var j :| 0 <= j < |ts[1..]| && m in Preorder(ts[1..][j]);
        assert ts[j + 1] == ts[1..][j];
      }
      if exists j :: 0 <= j < |ts| && m in Preorder(ts[j]) {
        var j :| 0 <= j < |ts| && m in Preorder(ts[j]);
        if j > 0 {
          assert ts[1..][j - 1] == ts[j];
        }
      }
    }
  }

  /** `findVersionedTuples(filter)`: the visited tuples the filter accepts,
      in visiting order. */
  function FindVersionedTuples(n: Node, filter: Node -> bool): (r: seq<Node>)
    ensures forall m :: m in r <==> m in Preorder(n) && filter(m)
  {
    Lists.Filter(Preorder(n), filter)
  }

  function HasId(id: int): Node -> bool {
    (m: Node) => m.id == id
  }

  /** The visited tuples carrying `id`, in visiting order. */
  function WithId(n: Node, id: int): seq<Node> {
    FindVersionedTuples(n, HasId(id))
  }

  /** `findVersionedTupleById`: the one visited tuple with the id, none, or
      an error as soon as a second one is visited. */
  method FindById(n: Node, id: int) returns (r: Result<Option<Node>, InstanceError>)
    ensures r.Failure? <==> |WithId(n, id)| >= 2
    ensures r.Failure? ==> r.error == MultipleTuplesFound(id)
    ensures r == Success(None) <==> |WithId(n, id)| == 0
    ensures |WithId(n, id)| == 1 ==> r == Success(Some(WithId(n, id)[0]))
  {
    var visited := Preorder(n);
    var found: Option<Node> := None;
    var i := 0;
    while i < |visited|
      invariant 0 <= i <= |visited|
      invariant found.None? <==> Lists.Filter(visited[..i], HasId(id)) == []
      invariant found.Some? ==> Lists.Filter(visited[..i], HasId(id)) == [found.value]
    {
      Lists.FilterExtend(visited, i, HasId(id));
      if visited[i].id == id {
        if found.Some? {
          Lists.FilterPrefix(visited, i + 1, HasId(id));
          return Failure(MultipleTuplesFound(id));
        }
        found := Some(visited[i]);
      }
      i := i + 1;
    }
    assert visited[..i] == visited;
    return Success(found);
  }

  /** `findRequiredVersionedTupleById`. */
  method FindRequired(n: Node, id: int) returns (r: Result<Node, InstanceError>)
    ensures r.Success? <==> |WithId(n, id)| == 1
    ensures r.Success? ==> r.value == WithId(n, id)[0]
    ensures |WithId(n, id)| == 0 ==> r == Failure(RequiredTupleNotFound(id))
    ensures |WithId(n, id)| >= 2 ==> r == Failure(MultipleTuplesFound(id))
  {
    var found := FindById(n, id);
    if found.Failure? {
      return Failure(found.error);
    }
    match found.value
    case None => return Failure(RequiredTupleNotFound(id));
    case Some(t) => return Success(t);
  }

  /** The tuple a traversal returns is one `forEachVersionedTuple` visits in
      the tree it leaves. */
  lemma {:induction false} WalkResultVisited(t: Node, path: seq<(string, int)>, op: PathOp, endTime: int)
    requires WellFormed(t)
    ensures var s := Walk(t, path, op, endTime);
      s.result.Success? ==> s.result.value in Preorder(s.tree)
    decreases |path|
  {
    var s := Walk(t, path, op, endTime);
    if |path| > 0 {
      match RelationIndex(t.relations, path[0].0)
      case None =>
      case Some(ri) =>
        var child := ChildAt(t.relations[ri], path[0].1);
        var inner := if |path| == 1 then Visit(child, op, endTime) else Walk(child, path[1..], op, endTime);
        assert s == Step(Graft(t, ri, inner.tree), inner.result);
        if s.result.Success? {
          if |path| > 1 {
            WalkResultVisited(child, path[1..], op, endTime);
          }
          assert s.result.value in Preorder(inner.tree);
          var ts := s.tree.relations[ri].tuples;
          var j :| 0 <= j < |ts| && ts[j] == inner.tree;
          PreorderMembers(s.tree, s.result.value);
        }
    }
  }

  // ---------------------------------------------------------------------------
  // Domain fields of a version (instance.ts:363-368)
  // ---------------------------------------------------------------------------

  /** `assertion[bind]`: the named columns, then the other fields; `None`
      stands for `undefined`. */
  function AssertionField(a: Assertion, bind: string): (v: Option<Value>)
    ensures bind == "valid_from" ==> v == Some(Num(a.validFrom))
    ensures bind == "valid_to" ==> v == Some(Num(a.validTo))
    ensures bind == "assertion_id" ==> v == Some(Num(a.assertionId))
    ensures bind !in {"valid_from", "valid_to", "assertion_id"} ==>
      (v.Some? <==> bind in a.fields) && (v.Some? ==> v.value == a.fields[bind])
  {
    if bind == "assertion_id" then Some(Num(a.assertionId))
    else if bind == "valid_from" then Some(Num(a.validFrom))
    else if bind == "valid_to" then Some(Num(a.validTo))
    else if bind in a.fields then Some(a.fields[bind])
    else None
  }

  function FieldEntries(fields: seq<ScalarField>, a: Assertion): (es: seq<(string, Option<Value>)>)
    ensures |es| == |fields|
    ensures forall i :: 0 <= i < |es| ==> es[i] == (fields[i].name, AssertionField(a, fields[i].bind))
  {
    seq(|fields|, i requires 0 <= i < |fields| => (fields[i].name, AssertionField(a, fields[i].bind)))
  }

  function FieldNames(fields: seq<ScalarField>): (names: seq<string>)
    ensures |names| == |fields|
    ensures forall i :: 0 <= i < |fields| ==> names[i] == fields[i].name
  {
    if |fields| == 0 then [] else FieldNames(fields[..|fields| - 1]) + [fields[|fields| - 1].name]
  }

  /** `TupleVersion.domainFields`: one entry per distinct scalar field name,
      in order of first occurrence. */
  function DomainFields(schema: Schema, a: Assertion): (r: seq<(string, Option<Value>)>)
    ensures Lists.DistinctKeys(r)
    ensures Lists.Keys(r) == Lists.Dedup(FieldNames(schema.scalarFields))
  {
    var es := FieldEntries(schema.scalarFields, a);
    assert Lists.Keys(es) == FieldNames(schema.scalarFields);
    Lists.FromEntries(es)
  }

  /** Field `k` is the last scalar field named `e.0`, and `e.1` is read
      through its bind. */
  predicate LastBind(fields: seq<ScalarField>, a: Assertion, e: (string, Option<Value>), k: nat) {
    && k < |fields| && fields[k].name == e.0
    && e.1 == AssertionField(a, fields[k].bind)
    && forall j :: k < j < |fields| ==> fields[j].name != e.0
  }

  /** When scalar fields share a name, the value is read through the bind of
      the last of them. */
  lemma DomainFieldsLastWins(schema: Schema, a: Assertion, i: nat)
    requires i < |DomainFields(schema, a)|
    ensures exists k :: LastBind(schema.scalarFields, a, DomainFields(schema, a)[i], k)
  {
    var fields := schema.scalarFields;
    var es := FieldEntries(fields, a);
    assert DomainFields(schema, a) == Lists.FromEntries(es);
    var k := Lists.FromEntriesSource(es, i);
    LastEntryBind(fields, a, es, k);
  }

  lemma LastEntryBind(fields: seq<ScalarField>, a: Assertion, es: seq<(string, Option<Value>)>, k: nat)
    requires es == FieldEntries(fields, a) && k < |es|
    requires forall j :: k < j < |es| ==> es[j].0 != es[k].0
    ensures LastBind(fields, a, es[k], k)
  {
    forall j | k < j < |fields|
      ensures fields[j].name != fields[k].name
    {
      assert es[j].0 == fields[j].name;
    }
  }
}

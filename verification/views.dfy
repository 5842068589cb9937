/** The view tree of the editor and its single open tuple editor
    (tagger/view.ts): the memoised getters of a relation view, the
    flattening of a view tree into its relation views, the `ActiveViews`
    slot that holds at most one open `TupleEditor`, and the copy of form
    values into the edited assertion when the editor closes.

    Markup rendering, the DOM form and the workspace are left out: the form
    is a map from field bind to the value it holds, and applying an
    assertion to the workspace is recorded in a log. */
module Views {
  import opened Wrappers
  import Lists

  // ---------------------------------------------------------------------------
  // The view tree
  // ---------------------------------------------------------------------------

  /** The `ScalarView` subclasses. */
  datatype ScalarKind = BooleanKind | IntegerKind | FloatKind | StringKind | VariantKind | IdKind | PrimaryKeyKind

  /** A view is a scalar view bound to one assertion field, or a nested
      relation view. */
  datatype View = Scalar(kind: ScalarKind, bind: string) | Nested(relation: RelationView)

  /** A `RelationView`, known by its relation's tag (tags are unique across
      a schema), with its child views in order. */
  datatype RelationView = RelationView(tag: string, views: seq<View>)

  const IsScalarView: View -> bool := (v: View) => v.Scalar?
  const IsNotPrimaryKey: View -> bool := (v: View) => !(v.Scalar? && v.kind == PrimaryKeyKind)

  /** What `scalarViews` is meant to hold: the scalar children in order. */
  function ScalarViewsOf(rv: RelationView): (r: seq<View>)
    ensures forall v :: v in r <==> v in rv.views && v.Scalar?
  {
    Lists.Filter(rv.views, IsScalarView)
  }

  /** What `userScalarViews` is meant to hold: the scalar children other
      than the primary key. */
  function UserScalarViewsOf(rv: RelationView): (r: seq<View>)
    ensures forall v :: v in r <==> v in rv.views && v.Scalar? && v.kind != PrimaryKeyKind
  {
    Lists.Filter(ScalarViewsOf(rv), IsNotPrimaryKey)
  }

  // ---------------------------------------------------------------------------
  // Memoised getters
  // ---------------------------------------------------------------------------

  /** The private memo slots of one relation view. */
  datatype Memo = Memo(scalarViews: Option<seq<View>>, userScalarViews: Option<seq<View>>)

  const NoMemo := Memo(None, None)

  /** Every filled slot holds what its getter is meant to return. */
  predicate MemoSound(rv: RelationView, m: Memo) {
    (m.scalarViews.Some? ==> m.scalarViews.value == ScalarViewsOf(rv))
    && (m.userScalarViews.Some? ==> m.userScalarViews.value == UserScalarViewsOf(rv))
  }

  /** `get scalarViews`: the slot's content if filled, otherwise the scalar
      children, stored in the slot. */
  function ScalarViews(rv: RelationView, m: Memo): (r: (seq<View>, Memo))
    ensures r.1.scalarViews == Some(r.0) && r.1.userScalarViews == m.userScalarViews
    ensures m.scalarViews.Some? ==> r.0 == m.scalarViews.value
    ensures MemoSound(rv, m) ==> r.0 == ScalarViewsOf(rv) && MemoSound(rv, r.1)
  {
    match m.scalarViews
    case Some(s) => (s, m)
    case None =>
      var s := ScalarViewsOf(rv);
      (s, m.(scalarViews := Some(s)))
  }

  /** `get userScalarViews` as written: it reads and fills the
      `scalarViews` slot rather than its own. */
  function UserScalarViewsAsWritten(rv: RelationView, m: Memo): (r: (seq<View>, Memo))
    ensures r.1.scalarViews == Some(r.0)
    ensures m.scalarViews.Some? ==> r.0 == m.scalarViews.value
    ensures m.scalarViews.None? ==> r.0 == UserScalarViewsOf(rv)
  {
    match m.scalarViews
    case Some(s) => (s, m)
    case None =>
      var all := ScalarViews(rv, m);
      var u := Lists.Filter(all.0, IsNotPrimaryKey);
      (u, all.1.(scalarViews := Some(u)))
  }

  /** `get userScalarViews` with its own slot: whatever was read before,
      it returns the user scalar views and keeps every slot sound. */
  function UserScalarViews(rv: RelationView, m: Memo): (r: (seq<View>, Memo))
    requires MemoSound(rv, m)
    ensures r.0 == UserScalarViewsOf(rv) && MemoSound(rv, r.1)
    ensures r.1.userScalarViews == Some(r.0)
  {
    match m.userScalarViews
    case Some(s) => (s, m)
    case None =>
      var all := ScalarViews(rv, m);
      var u := Lists.Filter(all.0, IsNotPrimaryKey);
      (u, all.1.(userScalarViews := Some(u)))
  }

  /** With the shared slot, the two getters answer according to which one
      was read first: reading `scalarViews` first makes `userScalarViews`
      include the primary key, and reading `userScalarViews` first makes
      `scalarViews` leave it out. */
  lemma SharedSlotCounterexample()
    ensures var rv := RelationView("entry", [Scalar(PrimaryKeyKind, "id"), Scalar(StringKind, "spelling")]);
      var afterScalar := ScalarViews(rv, NoMemo).1;
      var afterUser := UserScalarViewsAsWritten(rv, NoMemo).1;
      UserScalarViewsAsWritten(rv, afterScalar).0 == [Scalar(PrimaryKeyKind, "id"), Scalar(StringKind, "spelling")]
      && UserScalarViewsOf(rv) == [Scalar(StringKind, "spelling")]
      && ScalarViews(rv, afterUser).0 == [Scalar(StringKind, "spelling")]
      && ScalarViewsOf(rv) == [Scalar(PrimaryKeyKind, "id"), Scalar(StringKind, "spelling")]
  {
    var rv := RelationView("entry", [Scalar(PrimaryKeyKind, "id"), Scalar(StringKind, "spelling")]);
    assert rv.views[1..] == [Scalar(StringKind, "spelling")];
    assert ScalarViewsOf(rv) == rv.views;
    var s := ScalarViewsOf(rv);
    assert s[1..] == [Scalar(StringKind, "spelling")];
    assert UserScalarViewsOf(rv) == [Scalar(StringKind, "spelling")];
  }

  /** With separate slots the order of reads does not matter. */
  lemma GettersCommute(rv: RelationView)
    ensures var m1 := ScalarViews(rv, NoMemo).1;
      UserScalarViews(rv, m1).0 == UserScalarViewsOf(rv)
    ensures var m2 := UserScalarViews(rv, NoMemo).1;
      ScalarViews(rv, m2).0 == ScalarViewsOf(rv)
  {
  }

  // ---------------------------------------------------------------------------
  // descendantAndSelfRelationViews
  // ---------------------------------------------------------------------------

  /** `descendantAndSelfRelationViews`: the view itself, then each nested
      relation view's own list, in order. */
  function DescendantAndSelf(rv: RelationView): (r: seq<RelationView>)
    ensures |r| > 0 && r[0] == rv
    decreases rv
  {
    [rv] + Descendants(rv.views)
  }

  /** `descendantRelationViews`, over the child views: scalar views
      contribute nothing. */
  function Descendants(vs: seq<View>): seq<RelationView>
    decreases vs
  {
    if |vs| == 0 then []
    else
      (match vs[0]
       case Scalar(_, _) => []
       case Nested(r) => assert r < vs[0]; DescendantAndSelf(r))
      + Descendants(vs[1..])
  }

  /** `relationViews`: the nested relation views, in order. */
  function RelationViews(vs: seq<View>): (r: seq<RelationView>)
    ensures forall w :: w in r <==> Nested(w) in vs
  {
    if |vs| == 0 then []
    else
      (match vs[0]
       case Scalar(_, _) => []
       case Nested(r) => [r])
      + RelationViews(vs[1..])
  }

  /** The concatenation of each relation view's list. */
  function ConcatDescendants(rs: seq<RelationView>): seq<RelationView> {
    if |rs| == 0 then [] else DescendantAndSelf(rs[0]) + ConcatDescendants(rs[1..])
  }

  /** Skipping the scalar views is the same as concatenating the lists of
      `relationViews`, as the source does. */
  lemma {:induction false} DescendantsAreConcat(vs: seq<View>)
    ensures Descendants(vs) == ConcatDescendants(RelationViews(vs))
  {
    if |vs| > 0 {
      DescendantsAreConcat(vs[1..]);
      match vs[0]
      case Scalar(_, _) =>
        assert RelationViews(vs) == RelationViews(vs[1..]);
        assert Descendants(vs) == Descendants(vs[1..]);
      case Nested(r) =>
        assert RelationViews(vs) == [r] + RelationViews(vs[1..]);
        assert ([r] + RelationViews(vs[1..]))[1..] == RelationViews(vs[1..]);
    }
  }

  /** `w` is `rv` or a relation view nested, at any depth, below it. */
  predicate Within(w: RelationView, rv: RelationView)
    decreases rv
  {
    w == rv
    || exists i :: 0 <= i < |rv.views| && rv.views[i].Nested? && Within(w, rv.views[i].relation)
  }

  /** The flattened list holds exactly the relation views of the tree. */
  lemma {:induction false} DescendantAndSelfMembers(rv: RelationView, w: RelationView)
    ensures w in DescendantAndSelf(rv) <==> Within(w, rv)
    decreases rv
  {
    DescendantsMembers(rv.views, w);
  }

  lemma {:induction false} DescendantsMembers(vs: seq<View>, w: RelationView)
    ensures w in Descendants(vs) <==>
      exists i :: 0 <= i < |vs| && vs[i].Nested? && Within(w, vs[i].relation)
    decreases vs
  {
    if |vs| > 0 {
      DescendantsMembers(vs[1..], w);
      if vs[0].Nested? {
        assert vs[0].relation < vs[0];
        DescendantAndSelfMembers(vs[0].relation, w);
      }
      if w in Descendants(vs[1..]) {
        var i :| 0 <= i < |vs[1..]| && vs[1..][i].Nested? && Within(w, vs[1..][i].relation);
        assert vs[i + 1] == vs[1..][i];
      }
      if exists i :: 0 <= i < |vs| && vs[i].Nested? && Within(w, vs[i].relation) {
        var i :| 0 <= i < |vs| && vs[i].Nested? && Within(w, vs[i].relation);
        if i > 0 {
          assert vs[1..][i - 1] == vs[i];
        }
      }
    }
  }

  /** `relationViewForRelation.get(...)` on a view tree: the map built from
      the flattened list keeps the last view with each tag. */
  function LastWithTag(rs: seq<RelationView>, tag: string): (r: Option<RelationView>)
    ensures r.None? <==> forall i :: 0 <= i < |rs| ==> rs[i].tag != tag
    ensures r.Some? ==> r.value in rs && r.value.tag == tag
    ensures r.Some? ==> exists i :: (0 <= i < |rs| && rs[i] == r.value
                                     && forall j :: i < j < |rs| ==> rs[j].tag != tag)
  {
    if |rs| == 0 then None
    else if rs[|rs| - 1].tag == tag then Some(rs[|rs| - 1])
    else LastWithTag(rs[..|rs| - 1], tag)
  }

  function RelationViewFor(tree: RelationView, tag: string): (r: Option<RelationView>)
    ensures r.Some? ==> r.value.tag == tag && Within(r.value, tree)
    ensures r.None? ==> forall w :: Within(w, tree) ==> w.tag != tag
  {
    var all := DescendantAndSelf(tree);
    var r := LastWithTag(all, tag);
    if r.Some? then
      DescendantAndSelfMembers(tree, r.value);
      r
    else
      NoViewWithTag(tree, tag);
      r
  }

  lemma NoViewWithTag(tree: RelationView, tag: string)
    requires forall i :: 0 <= i < |DescendantAndSelf(tree)| ==> DescendantAndSelf(tree)[i].tag != tag
    ensures forall w :: Within(w, tree) ==> w.tag != tag
  {
    forall w | Within(w, tree)
      ensures w.tag != tag
    {
      DescendantAndSelfMembers(tree, w);
    }
  }

  // ---------------------------------------------------------------------------
  // TupleEditor.endFieldEdit
  // ---------------------------------------------------------------------------

  datatype FieldValue = Str(s: string) | Num(n: int) | Bool(b: bool)

  /** An assertion as the plain object the editor mutates, by field bind. */
  type Record = map<string, FieldValue>

  datatype RefKind = ReplaceSelf | FirstChild | LastChild | Before | After

  datatype TupleEditor = TupleEditor(
    renderRootId: string,
    view: RelationView,
    refKind: RefKind,
    refTupleId: int,
    assertion: Record)

  /** The binds of the scalar views in `vs`. */
  function Binds(vs: seq<View>): set<string> {
    if |vs| == 0 then {}
    else Binds(vs[..|vs| - 1]) + if vs[|vs| - 1].Scalar? then {vs[|vs| - 1].bind} else {}
  }

  /** `r` is `a` with the form's value written over each field in `binds`
      that the form holds a value for, and nothing else changed. */
  ghost predicate FormApplied(r: Record, a: Record, form: Record, binds: set<string>) {
    (forall k :: k in r <==> k in a || (k in form && k in binds))
    && forall k :: k in r ==> r[k] == if k in form && k in binds then form[k] else a[k]
  }

  /** The outcome of copying a form is fully determined. */
  lemma FormAppliedUnique(r1: Record, r2: Record, a: Record, form: Record, binds: set<string>)
    requires FormApplied(r1, a, form, binds) && FormApplied(r2, a, form, binds)
    ensures r1 == r2
  {
    assert r1.Keys == r2.Keys;
  }

  /** Copying one more form field keeps the copy faithful. */
  lemma FormAppliedStep(r: Record, a: Record, form: Record, binds: set<string>, bind: string)
    requires FormApplied(r, a, form, binds)
    ensures FormApplied(if bind in form then r[bind := form[bind]] else r, a, form, binds + {bind})
  {
  }

  /** Copying the form field of the next scalar view keeps the copy faithful
      to the views seen so far. */
  lemma CopyStep(a: Record, orig: Record, form: Record, views: seq<View>, i: nat)
    requires i < |views| && views[i].Scalar?
    requires FormApplied(a, orig, form, Binds(views[..i]))
    ensures var bind := views[i].bind;
      FormApplied(if bind in form then a[bind := form[bind]] else a, orig, form, Binds(views[..i + 1]))
  {
    assert views[..i + 1][..i] == views[..i];
    FormAppliedStep(a, orig, form, Binds(views[..i]), views[i].bind);
  }

  /** `TupleEditor.endFieldEdit`: the value each user scalar view's form
      field holds replaces the assertion's field; views whose form field is
      `undefined`, the primary key and every other field are left alone. */
  method EndTupleFieldEdit(e: TupleEditor, form: Record) returns (r: TupleEditor)
    ensures r.renderRootId == e.renderRootId && r.view == e.view
      && r.refKind == e.refKind && r.refTupleId == e.refTupleId
    ensures FormApplied(r.assertion, e.assertion, form, Binds(UserScalarViewsOf(e.view)))
  {
    var views := UserScalarViews(e.view, NoMemo).0;
    var a := e.assertion;
    for i := 0 to |views|
      invariant FormApplied(a, e.assertion, form, Binds(views[..i]))
    {
      assert views[i] in views;
      var bind := views[i].bind;
      CopyStep(a, e.assertion, form, views, i);
      if bind in form {
        a := a[bind := form[bind]];
      }
    }
    assert views[..|views|] == views;
    r := e.(assertion := a);
  }

  // ---------------------------------------------------------------------------
  // ActiveViews: the single open editor
  // ---------------------------------------------------------------------------

  /** What `openFieldEdit` looks the tuple's view up in: for each database
      tag, the tags of its schema's relations, and for each render root, its
      view tree. */
  datatype Context = Context(schemaTags: map<string, set<string>>, viewTrees: map<string, RelationView>)

  /** The editor slot, with the assertions applied to the workspace, the
      alerts shown and the render roots re-rendered, in order. */
  datatype Active = Active(
    open: Option<TupleEditor>,
    applied: seq<Record>,
    alerts: seq<string>,
    rerendered: seq<string>)

  datatype ViewError =
    | NoSchemaForTag(tag: string)
    | NoRenderRoot(renderRootId: string)
    | NoRelationView(tag: string)

  const AlreadyOpenAlert := "A field editor is already open"
  const NoneOpenAlert := "No field editor is currently open"

  /** The assertion's `ty`, the tag of the tuple's relation. */
  function TupleTag(a: Record): Option<string> {
    if "ty" in a && a["ty"].Str? then Some(a["ty"].s) else None
  }

  /** `getCurrentlyOpenTupleEditorForTupleId`. */
  function EditorForTupleId(av: Active, renderRootId: string, tupleId: int): (r: Option<TupleEditor>)
    ensures r.Some? <==> av.open.Some? && av.open.value.renderRootId == renderRootId
                         && av.open.value.refTupleId == tupleId
    ensures r.Some? ==> r == av.open
  {
    match av.open
    case Some(e) =>
      if e.renderRootId == renderRootId && e.refTupleId == tupleId then av.open else None
    case None => None
  }

  /** `getCurrentlyOpenTupleEditorForRenderRootId`. */
  function EditorForRenderRootId(av: Active, renderRootId: string): (r: Option<TupleEditor>)
    ensures r.Some? <==> av.open.Some? && av.open.value.renderRootId == renderRootId
    ensures r.Some? ==> r == av.open
  {
    match av.open
    case Some(e) => if e.renderRootId == renderRootId then av.open else None
    case None => None
  }

  /** An editor found by tuple id is the one found by its render root. */
  lemma TupleIdNarrowsRoot(av: Active, renderRootId: string, tupleId: int)
    ensures EditorForTupleId(av, renderRootId, tupleId).Some? ==>
      EditorForRenderRootId(av, renderRootId) == EditorForTupleId(av, renderRootId, tupleId)
  {
  }

  /** `openFieldEdit`. With an editor open it only alerts. Otherwise it finds
      the relation view for the assertion's tag in the render root's view
      tree, fills the slot and re-renders the root; a failed lookup throws. */
  function OpenFieldEdit(av: Active, ctx: Context, renderRootId: string, refKind: RefKind,
                         refDbTag: string, refTupleTag: string, refTupleId: int,
                         a: Record): (r: Result<Active, ViewError>)
    ensures av.open.Some? ==> r == Success(av.(alerts := av.alerts + [AlreadyOpenAlert]))
    ensures av.open.None? && r.Success? ==>
      && TupleTag(a).Some?
      && renderRootId in ctx.viewTrees
      && r.value.open.Some?
      && r.value.open.value.view.tag == TupleTag(a).value
      && Within(r.value.open.value.view, ctx.viewTrees[renderRootId])
      && r.value == av.(open := Some(TupleEditor(renderRootId, r.value.open.value.view, refKind, refTupleId, a)),
                         rerendered := av.rerendered + [renderRootId])
    ensures av.open.None? ==> (r.Failure? <==>
      || TupleTag(a).None?
      || refDbTag !in ctx.schemaTags
      || TupleTag(a).value !in ctx.schemaTags[refDbTag]
      || renderRootId !in ctx.viewTrees
      || forall w :: Within(w, ctx.viewTrees[renderRootId]) ==> w.tag != TupleTag(a).value)
  {
    if av.open.Some? then Success(av.(alerts := av.alerts + [AlreadyOpenAlert]))
    else
      var tag := TupleTag(a);
      if tag.None? || refDbTag !in ctx.schemaTags || tag.value !in ctx.schemaTags[refDbTag] then
        Failure(NoSchemaForTag(if tag.Some? then tag.value else ""))
      else if renderRootId !in ctx.viewTrees then Failure(NoRenderRoot(renderRootId))
      else match RelationViewFor(ctx.viewTrees[renderRootId], tag.value)
        case None => Failure(NoRelationView(tag.value))
        case Some(view) =>
          Success(av.(open := Some(TupleEditor(renderRootId, view, refKind, refTupleId, a)),
                      rerendered := av.rerendered + [renderRootId]))
  }

  /** An editor just opened is the one the getters find. */
  lemma OpenedEditorIsFound(av: Active, ctx: Context, renderRootId: string, refKind: RefKind,
                            refDbTag: string, refTupleTag: string, refTupleId: int, a: Record)
    requires av.open.None?
    requires OpenFieldEdit(av, ctx, renderRootId, refKind, refDbTag, refTupleTag, refTupleId, a).Success?
    ensures var r := OpenFieldEdit(av, ctx, renderRootId, refKind, refDbTag, refTupleTag, refTupleId, a).value;
      EditorForTupleId(r, renderRootId, refTupleId) == r.open
      && EditorForRenderRootId(r, renderRootId) == r.open
      && r.open.value.assertion == a
  {
  }

  /** `endFieldEdit`. With no editor open it only alerts. Otherwise the
      editor copies its form into its assertion, that assertion is applied
      once, the slot is emptied and the root re-rendered. */
  method EndFieldEdit(av: Active, form: Record) returns (r: Active)
    ensures av.open.None? ==> r == av.(alerts := av.alerts + [NoneOpenAlert])
    ensures av.open.Some? ==>
      && r.open.None?
      && r.alerts == av.alerts
      && r.rerendered == av.rerendered + [av.open.value.renderRootId]
      && |r.applied| == |av.applied| + 1
      && r.applied[..|av.applied|] == av.applied
      && FormApplied(r.applied[|av.applied|], av.open.value.assertion, form,
                     Binds(UserScalarViewsOf(av.open.value.view)))
  {
    match av.open
    case None =>
      r := av.(alerts := av.alerts + [NoneOpenAlert]);
    case Some(e) =>
      var edited := EndTupleFieldEdit(e, form);
      r := av.(open := None,
               applied := av.applied + [edited.assertion],
               rerendered := av.rerendered + [edited.renderRootId]);
      assert r.applied[..|av.applied|] == av.applied;
  }
}

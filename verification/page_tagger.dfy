/** The box editor of the page tagger (resources/page-tagger.js): resizing
    a bounding box by one of its four corner grabbers, the single active
    drag transaction that routes mouse events to that resize, and the
    string helpers that recover a bounding-box id from an element id.

    The DOM is reduced to what the callbacks read and write: the geometry
    of the grabbed box, its element id, and a log of the effects that leave
    the page (the update request, the extra abort action). Box attributes
    are held as integers; `Text.ParseIntOfIntToString` is why reading back
    an attribute the editor wrote gives the same integer. */
module PageTagger {
  import opened Wrappers
  import Text

  datatype TaggerError =
    | MissingPrefix(s: string, prefix: string)
    | NotAnInteger(v: string)
    | MalformedDragTx

  // ---------------------------------------------------------------------------
  // String helpers
  // ---------------------------------------------------------------------------

  /** `stripRequiredPrefix`: the rest of `s` after `prefix`, which must be
      there. */
  function StripRequiredPrefix(s: string, prefix: string): (r: Result<string, TaggerError>)
    ensures r.Success? <==> Text.StartsWith(s, prefix)
    ensures r.Success? ==> prefix + r.value == s
    ensures r.Failure? ==> r.error == MissingPrefix(s, prefix)
  {
    if Text.StartsWith(s, prefix) then
      assert s == prefix + s[|prefix|..];
      Success(s[|prefix|..])
    else Failure(MissingPrefix(s, prefix))
  }

  /** Stripping a prefix undoes prepending it. */
  lemma StripAfterPrepend(prefix: string, t: string)
    ensures StripRequiredPrefix(prefix + t, prefix) == Success(t)
  {
    Text.ConcatParts(prefix, t);
  }

  /** `safeParseInt`: `Number.parseInt`, with NaN turned into an error. */
  function SafeParseInt(v: string): (r: Result<int, TaggerError>)
    ensures r.Success? <==> Text.JsParseInt(v).Some?
    ensures r.Success? ==> r.value == Text.JsParseInt(v).value
    ensures r.Failure? ==> r.error == NotAnInteger(v)
  {
    match Text.JsParseInt(v)
    case None => Failure(NotAnInteger(v))
    case Some(n) => Success(n)
  }

  /** Element id of the bounding box with database id `n`. */
  const BoxIdPrefix := "bb_"

  /** The id a commit sends is the one the element id was made from. */
  lemma BoxIdReadsBack(n: int)
    ensures StripRequiredPrefix(BoxIdPrefix + Text.IntToString(n), BoxIdPrefix).Success?
    ensures SafeParseInt(StripRequiredPrefix(BoxIdPrefix + Text.IntToString(n), BoxIdPrefix).value)
      == Success(n)
  {
    StripAfterPrepend(BoxIdPrefix, Text.IntToString(n));
    Text.ParseIntOfIntToString(n);
  }

  // ---------------------------------------------------------------------------
  // Resize geometry
  // ---------------------------------------------------------------------------

  datatype Rect = Rect(x: int, y: int, width: int, height: int)

  function Right(r: Rect): int { r.x + r.width }
  function Bottom(r: Rect): int { r.y + r.height }

  datatype Point = Point(x: int, y: int)

  datatype Corner = TopLeft | TopRight | BottomLeft | BottomRight {
    predicate IsTop() { this == TopLeft || this == TopRight }
    predicate IsLeft() { this == TopLeft || this == BottomLeft }
  }

  /** A grabber sits at `cx`/`cy` of `0` on its box's left/top edge. */
  function CornerOf(cx: string, cy: string): (c: Corner)
    ensures c.IsTop() <==> cy == "0"
    ensures c.IsLeft() <==> cx == "0"
  {
    match (cy == "0", cx == "0")
    case (true, true) => TopLeft
    case (true, false) => TopRight
    case (false, true) => BottomLeft
    case (false, false) => BottomRight
  }

  const MinWidth := 20
  const MinHeight := 20

  function Min(a: int, b: int): int { if a <= b then a else b }
  function Max(a: int, b: int): int { if a >= b then a else b }

  /** A moving edge follows the pointer's displacement `delta` from `edge0`
      when the side it would then give, `followed`, is at least `least` long;
      otherwise the side is exactly `least` long. */
  predicate Follows(edge: int, edge0: int, delta: int, side: int, followed: int, least: int) {
    if followed >= least then edge == edge0 + delta && side == followed else side == least
  }

  /** The box after dragging `corner` by (`dx`, `dy`) from `initial`. */
  function Resize(corner: Corner, initial: Rect, dx: int, dy: int): (r: Rect)
    ensures r.width >= MinWidth && r.height >= MinHeight
    ensures corner.IsLeft() ==>
      Right(r) == Right(initial) && Follows(r.x, initial.x, dx, r.width, initial.width - dx, MinWidth)
    ensures !corner.IsLeft() ==>
      r.x == initial.x && Follows(Right(r), Right(initial), dx, r.width, initial.width + dx, MinWidth)
    ensures corner.IsTop() ==>
      Bottom(r) == Bottom(initial) && Follows(r.y, initial.y, dy, r.height, initial.height - dy, MinHeight)
    ensures !corner.IsTop() ==>
      r.y == initial.y && Follows(Bottom(r), Bottom(initial), dy, r.height, initial.height + dy, MinHeight)
  {
    match corner
    case TopLeft =>
      var cdx := Min(dx, initial.width - MinWidth);
      var cdy := Min(dy, initial.height - MinHeight);
      Rect(initial.x + cdx, initial.y + cdy, initial.width - cdx, initial.height - cdy)
    case TopRight =>
      var cdy := Min(dy, initial.height - MinHeight);
      Rect(initial.x, initial.y + cdy, Max(initial.width + dx, MinWidth), initial.height - cdy)
    case BottomLeft =>
      var cdx := Min(dx, initial.width - MinWidth);
      Rect(initial.x + cdx, initial.y, Max(initial.width - dx, MinWidth), Max(initial.height + dy, MinHeight))
    case BottomRight =>
      Rect(initial.x, initial.y, Max(initial.width + dx, MinWidth), Max(initial.height + dy, MinHeight))
  }

  /** A drag that has not moved leaves a viable box as it was. */
  lemma ResizeByNothing(corner: Corner, initial: Rect)
    requires initial.width >= MinWidth && initial.height >= MinHeight
    ensures Resize(corner, initial, 0, 0) == initial
  {
  }

  // ---------------------------------------------------------------------------
  // Drag transactions
  // ---------------------------------------------------------------------------

  /** A drag transaction: the three callbacks, any of which a malformed
      transaction may lack. */
  datatype Tx<!W> = Tx(
    onMouseMove: Option<(W, Point) -> W>,
    onCommit: Option<(W, Point) -> Result<W, TaggerError>>,
    onAbort: Option<W -> W>)

  predicate WellFormedTx<W>(tx: Tx<W>) {
    tx.onMouseMove.Some? && tx.onCommit.Some? && tx.onAbort.Some?
  }

  /** `activeDragTx` and the page it acts on. */
  datatype Drag<!W> = Drag(active: Option<Tx<W>>, world: W)

  /** Only validated transactions are ever installed. */
  predicate Valid<W>(d: Drag<W>) {
    d.active.Some? ==> WellFormedTx(d.active.value)
  }

  /** The state after an operation, and the exception it threw, if any. */
  datatype Outcome<!W> = Outcome(state: Drag<W>, thrown: Option<TaggerError>)

  /** `dragTxAbort`. */
  function Abort<W>(d: Drag<W>): (r: Drag<W>)
    requires Valid(d)
    ensures r.active.None?
    ensures d.active.None? ==> r.world == d.world
    ensures d.active.Some? ==> r.world == d.active.value.onAbort.value(d.world)
  {
    match d.active
    case None => d
    case Some(tx) => Drag(None, tx.onAbort.value(d.world))
  }

  /** `dragTxBegin`: the active transaction is aborted first, then the new
      one is validated and installed. */
  function Begin<W>(d: Drag<W>, tx: Tx<W>): (r: Outcome<W>)
    requires Valid(d)
    ensures Valid(r.state)
    ensures r.state.world == Abort(d).world
    ensures r.thrown.None? <==> WellFormedTx(tx)
    ensures r.thrown.Some? ==> r.thrown.value == MalformedDragTx && r.state.active.None?
    ensures r.thrown.None? ==> r.state.active == Some(tx)
  {
    var aborted := Abort(d);
    if WellFormedTx(tx) then Outcome(Drag(Some(tx), aborted.world), None)
    else Outcome(aborted, Some(MalformedDragTx))
  }

  /** `dragTxOnMouseMove`. */
  function MouseMove<W>(d: Drag<W>, p: Point): (r: Drag<W>)
    requires Valid(d)
    ensures Valid(r) && r.active == d.active
    ensures d.active.None? ==> r == d
    ensures d.active.Some? ==> r.world == d.active.value.onMouseMove.value(d.world, p)
  {
    match d.active
    case None => d
    case Some(tx) => Drag(d.active, tx.onMouseMove.value(d.world, p))
  }

  /** `dragTxCommit`. A commit callback that throws leaves the page as it
      was and the transaction still active. */
  function Commit<W>(d: Drag<W>, p: Point): (r: Outcome<W>)
    requires Valid(d)
    ensures Valid(r.state)
    ensures r.thrown.None? ==> r.state.active.None?
    ensures d.active.None? ==> r == Outcome(d, None)
    ensures d.active.Some? ==>
      match d.active.value.onCommit.value(d.world, p)
      case Success(w) => r == Outcome(Drag(None, w), None)
      case Failure(e) => r == Outcome(d, Some(e))
  {
    match d.active
    case None => Outcome(d, None)
    case Some(tx) =>
      match tx.onCommit.value(d.world, p)
      case Success(w) => Outcome(Drag(None, w), None)
      case Failure(e) => Outcome(d, Some(e))
  }

  /** Mouse moves, one after another. */
  function MoveAll<W>(d: Drag<W>, ps: seq<Point>): (r: Drag<W>)
    requires Valid(d)
    ensures Valid(r) && r.active == d.active
    ensures d.active.None? ==> r == d
    decreases |ps|
  {
    if |ps| == 0 then d else MoveAll(MouseMove(d, ps[0]), ps[1..])
  }

  // ---------------------------------------------------------------------------
  // The grabber transaction
  // ---------------------------------------------------------------------------

  /** What leaves the page: the shape update sent to the server, and the
      extra abort action a new box's draw passes in. */
  datatype Effect = UpdateRequest(url: string) | ExtraAbortAction

  /** The grabbed box and the effects so far. */
  datatype Board = Board(box: Rect, boxId: string, effects: seq<Effect>)

  /** What `grabberMouseDown` captures when a drag starts. */
  datatype Grab = Grab(corner: Corner, start: Point, initial: Rect, extraAbort: bool)

  function UpdateUrl(id: int, r: Rect): string {
    "/updateBoundingBoxShape(" + Text.IntToString(id)
    + ", {x:" + Text.IntToString(r.x) + ",y:" + Text.IntToString(r.y)
    + ",w:" + Text.IntToString(r.width) + ",h:" + Text.IntToString(r.height) + "})"
  }

  function GrabMove(g: Grab, b: Board, p: Point): Board {
    b.(box := Resize(g.corner, g.initial, p.x - g.start.x, p.y - g.start.y))
  }

  function GrabAbort(g: Grab, b: Board): Board {
    b.(box := g.initial, effects := b.effects + if g.extraAbort then [ExtraAbortAction] else [])
  }

  /** A box still too small is aborted instead of committed; otherwise its
      shape is sent under the id parsed from its element id. */
  function GrabCommit(g: Grab, b: Board): Result<Board, TaggerError> {
    if b.box.width < MinWidth || b.box.height < MinHeight then Success(GrabAbort(g, b))
    else
      var digits :- StripRequiredPrefix(b.boxId, BoxIdPrefix);
      var id :- SafeParseInt(digits);
      Success(b.(effects := b.effects + [UpdateRequest(UpdateUrl(id, b.box))]))
  }

  function GrabTx(g: Grab): (tx: Tx<Board>)
    ensures WellFormedTx(tx)
  {
    Tx(Some((b: Board, p: Point) => GrabMove(g, b, p)),
       Some((b: Board, p: Point) => GrabCommit(g, b)),
       Some((b: Board) => GrabAbort(g, b)))
  }

  /** `grabberMouseDown`: the box's geometry is read before the previous
      transaction is aborted, then the grab is installed. */
  function GrabberMouseDown(d: Drag<Board>, start: Point, cx: string, cy: string, extraAbort: bool): (r: Drag<Board>)
    requires Valid(d)
    ensures Valid(r)
    ensures r.active.Some?
    ensures r.active == Some(GrabTx(Grab(CornerOf(cx, cy), start, d.world.box, extraAbort)))
    ensures r.world == Abort(d).world
  {
    Begin(d, GrabTx(Grab(CornerOf(cx, cy), start, d.world.box, extraAbort))).state
  }

  /** Once a grab is active, every move reshapes the box from the geometry
      it had when the grab began, and touches nothing else: after a series
      of moves the board is the one the last move alone would give. */
  lemma {:induction false} GrabMoves(g: Grab, d: Drag<Board>, ps: seq<Point>)
    requires d.active == Some(GrabTx(g))
    ensures MoveAll(d, ps).world == if |ps| == 0 then d.world else GrabMove(g, d.world, ps[|ps| - 1])
    decreases |ps|
  {
    if |ps| > 0 {
      var d1 := MouseMove(d, ps[0]);
      assert d1.world == GrabMove(g, d.world, ps[0]);
      GrabMoves(g, d1, ps[1..]);
      assert MoveAll(d, ps) == MoveAll(d1, ps[1..]);
      if |ps| > 1 {
        assert ps[1..][|ps| - 2] == ps[|ps| - 1];
        GrabMoveTwice(g, d.world, ps[0], ps[|ps| - 1]);
      }
    }
  }

  /** A later move overrides an earlier one. */
  lemma GrabMoveTwice(g: Grab, b: Board, p: Point, q: Point)
    ensures GrabMove(g, GrabMove(g, b, p), q) == GrabMove(g, b, q)
  {
  }

  /** Aborting a grab, however far it was dragged, restores the box to the
      geometry it had when the grab began and runs the extra abort action
      when one was given. */
  lemma GrabAbortRestores(d: Drag<Board>, start: Point, cx: string, cy: string, extraAbort: bool, ps: seq<Point>)
    requires d.active.None?
    ensures var begun := GrabberMouseDown(d, start, cx, cy, extraAbort);
      var r := Abort(MoveAll(begun, ps));
      r.active.None? && r.world.box == d.world.box && r.world.boxId == d.world.boxId
      && r.world.effects == d.world.effects + if extraAbort then [ExtraAbortAction] else []
  {
    var g := Grab(CornerOf(cx, cy), start, d.world.box, extraAbort);
    var begun := GrabberMouseDown(d, start, cx, cy, extraAbort);
    assert begun == Drag(Some(GrabTx(g)), d.world);
    GrabMoves(g, begun, ps);
  }

  /** A box that has been dragged at all is big enough to commit: with an
      element id made from a bounding-box id, the commit sends the new shape
      under that id and ends the transaction. */
  lemma GrabCommitSends(d: Drag<Board>, start: Point, cx: string, cy: string, extraAbort: bool,
                        ps: seq<Point>, end: Point, n: int)
    requires d.active.None?
    requires d.world.boxId == BoxIdPrefix + Text.IntToString(n)
    requires |ps| > 0
    ensures var moved := MoveAll(GrabberMouseDown(d, start, cx, cy, extraAbort), ps);
      var r := Commit(moved, end);
      r.thrown.None? && r.state.active.None?
      && r.state.world.box == moved.world.box
      && r.state.world.effects == d.world.effects + [UpdateRequest(UpdateUrl(n, moved.world.box))]
  {
    var g := Grab(CornerOf(cx, cy), start, d.world.box, extraAbort);
    var begun := GrabberMouseDown(d, start, cx, cy, extraAbort);
    assert begun == Drag(Some(GrabTx(g)), d.world);
    GrabMoves(g, begun, ps);
    var moved := MoveAll(begun, ps);
    assert moved.world.box.width >= MinWidth && moved.world.box.height >= MinHeight;
    BoxIdReadsBack(n);
    assert GrabCommit(g, moved.world)
      == Success(moved.world.(effects := d.world.effects + [UpdateRequest(UpdateUrl(n, moved.world.box))]));
  }

  /** A new box committed before it reached viable size is aborted: the box
      goes back to its starting geometry and the extra abort action runs. */
  lemma GrabCommitTooSmall(d: Drag<Board>, start: Point, cx: string, cy: string, extraAbort: bool, end: Point)
    requires d.active.None?
    requires d.world.box.width < MinWidth || d.world.box.height < MinHeight
    ensures var r := Commit(GrabberMouseDown(d, start, cx, cy, extraAbort), end);
      r.thrown.None? && r.state.active.None? && r.state.world.box == d.world.box
      && r.state.world.effects == d.world.effects + if extraAbort then [ExtraAbortAction] else []
  {
    var g := Grab(CornerOf(cx, cy), start, d.world.box, extraAbort);
    var begun := GrabberMouseDown(d, start, cx, cy, extraAbort);
    assert begun == Drag(Some(GrabTx(g)), d.world);
    assert GrabCommit(g, d.world) == Success(GrabAbort(g, d.world));
  }
}

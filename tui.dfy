/** The toolkit object: it owns the screen and the component store, hands
    out ids, lays the components out (root, fill, grid and floating rules)
    and paints the components marked for redrawing in z-order. */
module Tui {
  import opened Base
  import opened Surface
  import Box
  import Text
  import opened Component
  import Grid

  // ----- Floating placement -----

  /** The column of a floating component `width` cells wide on a screen
      `screenWidth` cells wide: flush left, centred with the odd cell on the
      right, or flush right. */
  function HorizontalOrigin(alignment: HorizontalAlignment, screenWidth: int, width: int): (x: int)
    ensures alignment == AlignLeft ==> x == 0
    ensures alignment == AlignRight ==> x + width == screenWidth
    ensures alignment == AlignCenter && width <= screenWidth ==> 0 <= (screenWidth - (x + width)) - x <= 1
    ensures alignment == AlignCenter && width > screenWidth ==> -1 <= (screenWidth - (x + width)) - x <= 0
  {
    match alignment
    case AlignLeft => 0
    case AlignCenter => TruncDiv(screenWidth - width, 2)
    case AlignRight => screenWidth - width
  }

  /** The row of a floating component `height` cells high on a screen
      `screenHeight` cells high: at the top, centred with the odd row below,
      or at the bottom. */
  function VerticalOrigin(alignment: VerticalAlignment, screenHeight: int, height: int): (y: int)
    ensures alignment == AlignTop ==> y == 0
    ensures alignment == AlignBottom ==> y + height == screenHeight
    ensures alignment == AlignMiddle && height <= screenHeight ==> 0 <= (screenHeight - (y + height)) - y <= 1
    ensures alignment == AlignMiddle && height > screenHeight ==> -1 <= (screenHeight - (y + height)) - y <= 0
  {
    match alignment
    case AlignTop => 0
    case AlignMiddle => TruncDiv(screenHeight - height, 2)
    case AlignBottom => screenHeight - height
  }

  /** A floating component placed on the screen by its alignments, its size
      kept. */
  function Floated(n: Node, screenWidth: int, screenHeight: int): Node
  {
    WithGeometry(n, HorizontalOrigin(n.horizontalAlignment, screenWidth, n.width),
                 VerticalOrigin(n.verticalAlignment, screenHeight, n.height), n.width, n.height)
  }

  // ----- Grid members -----

  /** The components of `s` that are not floating, in the order of `s`. */
  function NonFloating(nodes: map<int, Node>, s: seq<int>): (r: seq<int>)
    requires forall k :: 0 <= k < |s| ==> s[k] in nodes
    ensures forall x :: x in r <==> x in s && x in nodes && !nodes[x].floating
  {
    if s == [] then []
    else
      var n := |s| - 1;
      var front := NonFloating(nodes, s[..n]);
      if nodes[s[n]].floating then front else front + [s[n]]
  }

  /** Leaving components out keeps ids ascending. */
  lemma {:induction false} NonFloatingIncreasing(nodes: map<int, Node>, s: seq<int>)
    requires forall k :: 0 <= k < |s| ==> s[k] in nodes
    requires Increasing(s)
    ensures Increasing(NonFloating(nodes, s))
  {
    if s != [] {
      var n := |s| - 1;
      var front := NonFloating(nodes, s[..n]);
      NonFloatingIncreasing(nodes, s[..n]);
      forall j | 0 <= j < |front|
        ensures front[j] < s[n]
      {
        assert front[j] in s[..n];
      }
    }
  }

  /** The siblings of a component, the component among them while it is
      listed, sorted by id, have no repetitions. */
  lemma {:induction false} SiblingsIncreasing(nodes: map<int, Node>, id: int)
    requires Linked(nodes) && id in nodes
    requires nodes[id].parent.Some? && nodes[id].parent.value in nodes
    ensures Increasing(GetSiblings(nodes, id))
  {
    var siblings := GetSiblings(nodes, id);
    DistinctPermutation(siblings, nodes[nodes[id].parent.value].children);
  }

  /** The siblings of a component are stored components. */
  lemma {:induction false} SiblingsStored(nodes: map<int, Node>, c: int)
    requires Linked(nodes) && c in nodes
    requires nodes[c].parent.Some? && nodes[c].parent.value in nodes
    ensures forall k :: 0 <= k < |GetSiblings(nodes, c)| ==> GetSiblings(nodes, c)[k] in nodes
  {
    var siblings := GetSiblings(nodes, c);
    var p := nodes[c].parent.value;
    forall k | 0 <= k < |siblings|
      ensures siblings[k] in nodes
    {
      assert siblings[k] in nodes[p].children;
      var m :| 0 <= m < |nodes[p].children| && nodes[p].children[m] == siblings[k];
    }
  }

  /** The members of the grid `CalculateGridGeometry` lays out for `c`: the
      children of its parent that are not floating, by ascending id. */
  function GridMembers(nodes: map<int, Node>, c: int): (members: seq<int>)
    requires Linked(nodes) && c in nodes
    requires nodes[c].parent.Some? && nodes[c].parent.value in nodes
    ensures Increasing(members)
    ensures forall k :: 0 <= k < |members| ==> members[k] in nodes
    ensures forall x :: x in members <==>
              x in nodes[nodes[c].parent.value].children && x in nodes && !nodes[x].floating
  {
    var siblings := GetSiblings(nodes, c);
    SiblingsStored(nodes, c);
    SiblingsIncreasing(nodes, c);
    NonFloatingIncreasing(nodes, siblings);
    NonFloating(nodes, siblings)
  }

  /** The sizing inputs of the members along the grid's axis: the height
      percentage and limits for a vertical grid, the width ones otherwise. */
  function Axis(nodes: map<int, Node>, ids: seq<int>, vertical: bool): (sibs: seq<Grid.Sibling>)
    requires forall k :: 0 <= k < |ids| ==> ids[k] in nodes
    ensures |sibs| == |ids|
  {
    seq(|ids|, k requires 0 <= k < |ids| =>
      var n := nodes[ids[k]];
      if vertical then Grid.Sibling(n.heightPercent, n.minHeight, n.maxHeight)
      else Grid.Sibling(n.widthPercent, n.minWidth, n.maxWidth))
  }

  /** The cells the members share: the parent's height less twice its
      padding for a vertical grid, its width less twice its padding
      otherwise. */
  function TargetSize(parent: Node): int
  {
    if parent.layout == VerticalGrid then parent.height - parent.padding * 2
    else parent.width - parent.padding * 2
  }

  /** The k-th member of the grid of parent `p` with its grid geometry. */
  function GridPlaced(nodes: map<int, Node>, p: int, members: seq<int>, k: int): Node
    requires p in nodes && 0 <= k < |members|
    requires forall j :: 0 <= j < |members| ==> members[j] in nodes
  {
    var parent := nodes[p];
    var vertical := parent.layout == VerticalGrid;
    var sizes := Grid.GridSizes(Axis(nodes, members, vertical), vertical, TargetSize(parent));
    var g := Grid.Placement(parent.layout == HorizontalGrid, parent.padding, parent.width, parent.height, sizes, k);
    WithGeometry(nodes[members[k]], g.0, g.1, g.2, g.3)
  }

  /** The grid rule has been applied for `c` from `a` to `b`: every member
      of the grid is placed, and the processed set grew by the members. */
  ghost predicate GridLaidOut(a: map<int, Node>, b: map<int, Node>, c: int, processed: set<int>, done: set<int>)
    requires Linked(a) && c in a && a[c].parent.Some? && a[c].parent.value in a
  {
    var members := GridMembers(a, c);
    && (forall x :: x in done <==> x in processed || x in members)
    && forall k | 0 <= k < |members| :: members[k] in b && b[members[k]] == GridPlaced(a, a[c].parent.value, members, k)
  }

  /** `x` is a child of the parent of `c`. */
  ghost predicate SiblingOf(nodes: map<int, Node>, c: int, x: int)
    requires c in nodes
  {
    nodes[c].parent.Some? && nodes[c].parent.value in nodes && x in nodes[nodes[c].parent.value].children
  }

  // ----- Redrawing -----

  /** The draw map went from `before` to `after` by marking exactly the
      components of `s` that differ between `a` and `b`. */
  ghost predicate MarkedExactly(before: set<int>, after: set<int>, a: map<int, Node>, b: map<int, Node>, s: seq<int>)
  {
    && before <= after
    && (forall x | x in after && x !in before :: x in s && x in a && x in b && a[x] != b[x])
    && (forall x | x in s && x in a && x in b && a[x] != b[x] :: x in after)
  }

  /** What the placement loop of `CalculateGridGeometry` has achieved
      after placing `members[..i]`, starting from `nodes0`. */
  ghost predicate GridProgress(nodes0: map<int, Node>, nodes: map<int, Node>, members: seq<int>, i: int,
                               horizontal: bool, padding: int, parentWidth: int, parentHeight: int, sizes: seq<int>)
    requires 0 <= i <= |members| == |sizes| && forall k :: 0 <= k < |members| ==> members[k] in nodes0
  {
    && GeometryOnly(nodes0, nodes)
    && (forall k | 0 <= k < i ::
          var g := Grid.Placement(horizontal, padding, parentWidth, parentHeight, sizes, k);
          nodes[members[k]] == WithGeometry(nodes0[members[k]], g.0, g.1, g.2, g.3))
    && (forall x | x in nodes0 && x !in members[..i] :: nodes[x] == nodes0[x])
  }

  /** Placing `members[i]` extends the progress of the placement loop by
      one member, marked for redrawing iff its geometry changed. */
  lemma {:induction false} PlacedMember(nodes0: map<int, Node>, before: map<int, Node>, after: map<int, Node>,
                     marked0: set<int>, marked: set<int>, marked': set<int>, changed: bool,
                     members: seq<int>, i: int,
                     horizontal: bool, padding: int, parentWidth: int, parentHeight: int, sizes: seq<int>)
    requires 0 <= i < |members| == |sizes| && Distinct(members)
    requires forall k :: 0 <= k < |members| ==> members[k] in nodes0
    requires GridProgress(nodes0, before, members, i, horizontal, padding, parentWidth, parentHeight, sizes)
    requires MarkedExactly(marked0, marked, nodes0, before, members[..i])
    requires var g, n := Grid.Placement(horizontal, padding, parentWidth, parentHeight, sizes, i), before[members[i]];
      && after == before[members[i] := WithGeometry(n, g.0, g.1, g.2, g.3)]
      && changed == (n.x != g.0 || n.y != g.1 || n.width != g.2 || n.height != g.3)
    requires marked' == marked + (if changed then {members[i]} else {})
    ensures GridProgress(nodes0, after, members, i + 1, horizontal, padding, parentWidth, parentHeight, sizes)
    ensures MarkedExactly(marked0, marked', nodes0, after, members[..i + 1])
  {
    var c := members[i];
    assert members[..i + 1] == members[..i] + [c];
    assert c !in members[..i];
    assert before[c] == nodes0[c];
    forall k | 0 <= k < i
      ensures members[k] != c
    {
    }
  }

  /** Every component that differs between `a` and `b` is in the draw map. */
  ghost predicate Scheduled(a: map<int, Node>, b: map<int, Node>, drawMap: set<int>)
  {
    forall id | id in a && id in b && a[id] != b[id] :: id in drawMap
  }

  /** The sort key of the draw queue: the z-index (ties go by id, see
      `Before`). */
  function ZKey(nodes: map<int, Node>): int -> int
  {
    id => if id in nodes then nodes[id].zIndex else 0
  }

  /** The draw queue: the components of `pending` sorted by z-index and
      then id, as `slices.SortFunc` leaves them. */
  function ZOrder(pending: seq<int>, nodes: map<int, Node>): (queue: seq<int>)
    requires Distinct(pending)
    ensures Distinct(queue) && SortedBy(queue, ZKey(nodes))
    ensures multiset(queue) == multiset(pending)
    ensures forall x :: x in queue <==> x in pending
  {
    var queue := SortBy(pending, ZKey(nodes));
    DistinctPermutation(queue, pending);
    SameMembers(queue, pending);
    queue
  }

  /** Cell `p` lies in the rectangle of one of the components `ids`. */
  ghost predicate Covered(nodes: map<int, Node>, rank: map<int, nat>, ids: seq<int>, p: (int, int))
    requires WellFormed(nodes, rank) && forall k :: 0 <= k < |ids| ==> ids[k] in nodes
  {
    && ids != []
    && var c := ids[|ids| - 1];
       (|| Covered(nodes, rank, ids[..|ids| - 1], p)
        || InRect(p, AbsX(nodes, rank, c), AbsY(nodes, rank, c), nodes[c].width, nodes[c].height))
  }

  // ----- Painting -----

  /** What a component paints with, read when it is painted: a box's border
      style, or a text and its alignment. */
  datatype Look = BoxLook(border: Box.BorderStyle) | TextLook(text: string, alignment: Text.TextAlignment)

  /** The look of a component with this spec, read from its box or text. */
  function LookOf(spec: Spec): Look
    reads if spec.BoxSpec? then {spec.box} else {}, if spec.TextSpec? then {spec.text} else {}
  {
    match spec
    case BoxSpec(box) => BoxLook(box.border)
    case TextSpec(text) => TextLook(text.text, text.alignment)
  }

  /** The looks of the components `ids`, in order. */
  ghost function Looks(nodes: map<int, Node>, ids: seq<int>): (looks: seq<Look>)
    requires forall k :: 0 <= k < |ids| ==> ids[k] in nodes
    reads set k | 0 <= k < |ids| && nodes[ids[k]].spec.BoxSpec? :: nodes[ids[k]].spec.box
    reads set k | 0 <= k < |ids| && nodes[ids[k]].spec.TextSpec? :: nodes[ids[k]].spec.text
    ensures |looks| == |ids| && forall k :: 0 <= k < |ids| ==> looks[k] == LookOf(nodes[ids[k]].spec)
  {
    if ids == [] then [] else Looks(nodes, ids[..|ids| - 1]) + [LookOf(nodes[ids[|ids| - 1]].spec)]
  }

  /** `after` is `before` with component `id` painted at its absolute
      position as `look` says, ending with `outcome`: a box shows its glyph
      in every cell of its rectangle and cannot panic; a text shows the
      rendered lines of its wrapped words until one panics. */
  ghost predicate PaintsAs(after: map<(int, int), Cell>, before: map<(int, int), Cell>,
                           nodes: map<int, Node>, rank: map<int, nat>, id: int, look: Look, outcome: Result<()>)
    requires WellFormed(nodes, rank) && id in nodes
  {
    var n, left, top := nodes[id], AbsX(nodes, rank, id), AbsY(nodes, rank, id);
    match look
    case BoxLook(border) =>
      outcome == Ok(()) && Box.Boxed(after, before, left, top, n.width, n.height, border, n.style)
    case TextLook(text, alignment) =>
      exists lines, rendered :: Text.Drawn(after, before, left, top, n.width, n.height, n.style, text, alignment, outcome, lines, rendered)
  }

  /** `frames` are the screens of one painting of `queue`: the first is the
      screen before it, and each next one is the one before with the next
      component of the queue painted as its look says. When the painting
      succeeds every component is painted; when it panics the last one
      painted is the one that panicked, and the rest are not painted. */
  ghost predicate PaintedInTurn(nodes: map<int, Node>, rank: map<int, nat>, queue: seq<int>, looks: seq<Look>,
                                frames: seq<map<(int, int), Cell>>, outcome: Result<()>)
    requires WellFormed(nodes, rank) && forall k :: 0 <= k < |queue| ==> queue[k] in nodes
  {
    && |looks| == |queue|
    && 1 <= |frames| <= |queue| + 1
    && (outcome.Ok? ==> |frames| == |queue| + 1)
    && (outcome.Panic? ==> |frames| >= 2)
    && forall k :: 0 <= k < |frames| - 1 ==>
         PaintsAs(frames[k + 1], frames[k], nodes, rank, queue[k], looks[k], if k + 2 == |frames| then outcome else Ok(()))
  }

  /** The first `|frames| - 1` components of `queue` are painted in turn,
      each without a panic. */
  ghost predicate PaintedSoFar(nodes: map<int, Node>, rank: map<int, nat>, queue: seq<int>, looks: seq<Look>,
                               frames: seq<map<(int, int), Cell>>)
    requires WellFormed(nodes, rank) && forall k :: 0 <= k < |queue| ==> queue[k] in nodes
  {
    && |looks| == |queue|
    && 1 <= |frames| <= |queue| + 1
    && forall k :: 0 <= k < |frames| - 1 ==> PaintsAs(frames[k + 1], frames[k], nodes, rank, queue[k], looks[k], Ok(()))
  }

  /** Painting the next component extends the painting: on success it goes
      on, on a panic it ends there. */
  lemma {:induction false} PaintedNext(nodes: map<int, Node>, rank: map<int, nat>, queue: seq<int>, looks: seq<Look>,
                                       frames: seq<map<(int, int), Cell>>, after: map<(int, int), Cell>, outcome: Result<()>)
    requires WellFormed(nodes, rank) && forall k :: 0 <= k < |queue| ==> queue[k] in nodes
    requires PaintedSoFar(nodes, rank, queue, looks, frames) && |frames| <= |queue|
    requires PaintsAs(after, frames[|frames| - 1], nodes, rank, queue[|frames| - 1], looks[|frames| - 1], outcome)
    ensures outcome.Ok? ==> PaintedSoFar(nodes, rank, queue, looks, frames + [after])
    ensures outcome.Panic? ==> PaintedInTurn(nodes, rank, queue, looks, frames + [after], outcome)
  {
    var next := frames + [after];
    forall k | 0 <= k < |next| - 1
      ensures PaintsAs(next[k + 1], next[k], nodes, rank, queue[k], looks[k], if k + 2 == |next| then outcome else Ok(()))
    {
      if k + 2 < |next| {
        assert next[k + 1] == frames[k + 1] && next[k] == frames[k];
      }
    }
    match outcome
    case Ok(v) => assert v == ();
    case Panic(_) =>
  }

  /** Painting every component without a panic is a successful painting. */
  lemma {:induction false} PaintedAll(nodes: map<int, Node>, rank: map<int, nat>, queue: seq<int>, looks: seq<Look>,
                                      frames: seq<map<(int, int), Cell>>)
    requires WellFormed(nodes, rank) && forall k :: 0 <= k < |queue| ==> queue[k] in nodes
    requires PaintedSoFar(nodes, rank, queue, looks, frames) && |frames| == |queue| + 1
    ensures PaintedInTurn(nodes, rank, queue, looks, frames, Ok(()))
  {
  }

  /** Painting a component changes nothing outside its rectangle. */
  lemma {:induction false} PaintsConfined(after: map<(int, int), Cell>, before: map<(int, int), Cell>,
                                          nodes: map<int, Node>, rank: map<int, nat>, id: int, look: Look, outcome: Result<()>)
    requires WellFormed(nodes, rank) && id in nodes
    requires PaintsAs(after, before, nodes, rank, id, look, outcome)
    ensures Confined(after, before, AbsX(nodes, rank, id), AbsY(nodes, rank, id), nodes[id].width, nodes[id].height)
  {
    var n, left, top := nodes[id], AbsX(nodes, rank, id), AbsY(nodes, rank, id);
    match look
    case BoxLook(border) =>
    case TextLook(text, alignment) =>
      var lines, rendered :| Text.Drawn(after, before, left, top, n.width, n.height, n.style, text, alignment, outcome, lines, rendered);
      Text.DrawnConfined(after, before, left, top, n.width, n.height, n.style, text, alignment, outcome, lines, rendered);
  }

  /** A cell that no component painted from frame `m` on covers keeps what
      it showed in frame `m` to the end. */
  lemma {:induction false} KeptToEnd(nodes: map<int, Node>, rank: map<int, nat>, queue: seq<int>, looks: seq<Look>,
                                     frames: seq<map<(int, int), Cell>>, outcome: Result<()>, m: int, p: (int, int))
    requires WellFormed(nodes, rank) && forall k :: 0 <= k < |queue| ==> queue[k] in nodes
    requires PaintedInTurn(nodes, rank, queue, looks, frames, outcome)
    requires 0 <= m < |frames| && p in frames[m]
    requires forall j :: m <= j < |frames| - 1 ==>
               !InRect(p, AbsX(nodes, rank, queue[j]), AbsY(nodes, rank, queue[j]), nodes[queue[j]].width, nodes[queue[j]].height)
    ensures p in frames[|frames| - 1] && frames[|frames| - 1][p] == frames[m][p]
    decreases |frames| - m
  {
    if m < |frames| - 1 {
      PaintsConfined(frames[m + 1], frames[m], nodes, rank, queue[m], looks[m], if m + 2 == |frames| then outcome else Ok(()));
      KeptToEnd(nodes, rank, queue, looks, frames, outcome, m + 1, p);
    }
  }

  /** A cell whose last covering painted component is a box shows that
      box's glyph, in its style, when the painting ends. */
  lemma {:induction false} LastBoxShows(nodes: map<int, Node>, rank: map<int, nat>, queue: seq<int>, looks: seq<Look>,
                                        frames: seq<map<(int, int), Cell>>, outcome: Result<()>, k: int, p: (int, int))
    requires WellFormed(nodes, rank) && forall j :: 0 <= j < |queue| ==> queue[j] in nodes
    requires PaintedInTurn(nodes, rank, queue, looks, frames, outcome)
    requires 0 <= k < |frames| - 1 && looks[k].BoxLook?
    requires InRect(p, AbsX(nodes, rank, queue[k]), AbsY(nodes, rank, queue[k]), nodes[queue[k]].width, nodes[queue[k]].height)
    requires forall j :: k < j < |frames| - 1 ==>
               !InRect(p, AbsX(nodes, rank, queue[j]), AbsY(nodes, rank, queue[j]), nodes[queue[j]].width, nodes[queue[j]].height)
    ensures var c := queue[k];
            var left, top := AbsX(nodes, rank, c), AbsY(nodes, rank, c);
            && p in frames[|frames| - 1]
            && frames[|frames| - 1][p] == Cell(Box.GlyphAt(looks[k].border, p.0 - left, p.1 - top, nodes[c].width, nodes[c].height), nodes[c].style)
  {
    assert PaintsAs(frames[k + 1], frames[k], nodes, rank, queue[k], looks[k], if k + 2 == |frames| then outcome else Ok(()));
    KeptToEnd(nodes, rank, queue, looks, frames, outcome, k + 1, p);
  }

  /** Only cells inside the rectangles of the painted components change,
      and no cell appears outside them. */
  lemma {:induction false} CoveredFromFrames(nodes: map<int, Node>, rank: map<int, nat>, queue: seq<int>, looks: seq<Look>,
                                             frames: seq<map<(int, int), Cell>>, outcome: Result<()>)
    requires WellFormed(nodes, rank) && forall k :: 0 <= k < |queue| ==> queue[k] in nodes
    requires PaintedInTurn(nodes, rank, queue, looks, frames, outcome)
    ensures var first, last := frames[0], frames[|frames| - 1];
            && (forall p :: p in first && !Covered(nodes, rank, queue, p) ==> p in last && last[p] == first[p])
            && (forall p :: p in last ==> p in first || Covered(nodes, rank, queue, p))
  {
    var m := 0;
    while m < |frames| - 1
      invariant 0 <= m < |frames|
      invariant forall p :: p in frames[0] && !Covered(nodes, rank, queue[..m], p) ==> p in frames[m] && frames[m][p] == frames[0][p]
      invariant forall p :: p in frames[m] ==> p in frames[0] || Covered(nodes, rank, queue[..m], p)
    {
      PaintsConfined(frames[m + 1], frames[m], nodes, rank, queue[m], looks[m], if m + 2 == |frames| then outcome else Ok(()));
      assert queue[..m + 1][..m] == queue[..m];
      CoveredFrame(nodes, rank, queue[..m], queue[..m + 1], m);
      m := m + 1;
    }
    CoveredPrefix(nodes, rank, queue, m);
  }

  // ----- Removal -----

  /** The store after the first step of `RemoveComponent`: a component
      with a parent is taken out of its parent's list and forgets its own
      children; a root is left as it is. */
  ghost function Unlinked(nodes: map<int, Node>, id: int): map<int, Node>
    requires id in nodes && (nodes[id].parent.Some? ==> nodes[id].parent.value in nodes)
  {
    match nodes[id].parent
    case None => nodes
    case Some(p) =>
      var m := nodes[p := nodes[p].(children := Without(nodes[p].children, id))];
      m[id := m[id].(children := [])]
  }

  /** The components of `order` with neither parent nor children. */
  ghost function Cleared(nodes: map<int, Node>, order: seq<int>): map<int, Node>
  {
    map x | x in nodes :: if x in order then nodes[x].(parent := None, children := []) else nodes[x]
  }

  /** After the first step of `RemoveComponent` no component lists the
      removed one. */
  lemma {:induction false} UnlinkedUnlisted(nodes: map<int, Node>, rank: map<int, nat>, id: int)
    requires WellFormed(nodes, rank) && id in nodes
    ensures Unlisted(Unlinked(nodes, id), id)
  {
    var after := Unlinked(nodes, id);
    forall q | q in after
      ensures id !in after[q].children
    {
      if id in nodes[q].children {
        var k :| 0 <= k < |nodes[q].children| && nodes[q].children[k] == id;
        assert nodes[id].parent == Some(q);
        if q != id {
          WithoutMembers(nodes[q].children, id, id);
        }
      }
    }
  }

  /** The first `i` components of `visit` have been cleared, the others are
      as in `nodes0`. */
  ghost predicate ClearedUpTo(nodes0: map<int, Node>, nodes: map<int, Node>, visit: seq<int>, i: int)
    requires 0 <= i <= |visit|
  {
    && nodes.Keys == nodes0.Keys
    && forall x | x in nodes0 ::
         nodes[x] == (if x in visit[..i] then nodes0[x].(parent := None, children := []) else nodes0[x])
  }

  lemma {:induction false} ClearedStep(nodes0: map<int, Node>, nodes: map<int, Node>, after: map<int, Node>, visit: seq<int>, i: int)
    requires 0 <= i < |visit| && visit[i] in nodes && ClearedUpTo(nodes0, nodes, visit, i)
    requires visit[i] !in visit[..i]
    requires after == nodes[visit[i] := nodes[visit[i]].(parent := None)][visit[i] := nodes[visit[i]].(parent := None, children := [])]
    ensures ClearedUpTo(nodes0, after, visit, i + 1)
  {
    assert visit[..i + 1] == visit[..i] + [visit[i]];
  }

  lemma {:induction false} ClearedAll(nodes0: map<int, Node>, nodes: map<int, Node>, visit: seq<int>)
    requires ClearedUpTo(nodes0, nodes, visit, |visit|)
    ensures nodes == Cleared(nodes0, visit)
  {
    assert visit[..|visit|] == visit;
    var cleared := Cleared(nodes0, visit);
    assert nodes.Keys == cleared.Keys;
    forall x | x in nodes
      ensures nodes[x] == cleared[x]
    {
    }
  }

  /** While `RemoveComponent` clears the components of a traversal in
      order, the next one is listed by no component: its parent comes
      earlier and has been cleared, and no other component lists it. */
  lemma {:induction false} UnlistedAtTurn(nodes0: map<int, Node>, nodes: map<int, Node>, rank: map<int, nat>,
                       c: int, order: seq<int>, i: int)
    requires WellFormed(nodes0, rank) && IsTraversal(nodes0, c, order) && ParentsFirst(nodes0, order)
    requires Unlisted(nodes0, c) && 0 <= i < |order|
    requires ClearedUpTo(nodes0, nodes, order, i)
    ensures Unlisted(nodes, order[i])
  {
    var e := order[i];
    forall q | q in nodes && q !in order[..i]
      ensures e !in nodes[q].children
    {
      if i > 0 {
        var j :| 0 <= j < i && nodes0[e].parent == Some(order[j]);
        assert order[j] == order[..i][j];
      }
      forall k | 0 <= k < |nodes0[q].children|
        ensures nodes0[q].children[k] != e
      {
        assert nodes0[nodes0[q].children[k]].parent == Some(q);
      }
    }
  }

  /** Every component after the first in a traversal from a component
      without children has rank at least `n`; so there is none. */
  lemma {:induction false} Descent(nodes: map<int, Node>, rank: map<int, nat>, c: int, order: seq<int>, n: nat)
    requires WellFormed(nodes, rank) && c in nodes && nodes[c].children == [] && IsTraversal(nodes, c, order)
    ensures forall k :: 1 <= k < |order| ==> rank[order[k]] >= n
  {
    if n > 0 {
      Descent(nodes, rank, c, order, n - 1);
      forall k | 1 <= k < |order|
        ensures rank[order[k]] >= n
      {
        var x := order[k];
        var listed := ChildrenOf(nodes, order);
        assert order == [c] + listed;
        assert x == listed[k - 1];
        ChildrenOfMembers(nodes, order, x);
        var j :| 0 <= j < |order| && x in nodes[order[j]].children;
        ChildBack(nodes, order[j], x);
      }
    }
  }

  /** The traversal from a component without children holds only it. */
  lemma {:induction false} LeafTraversal(nodes: map<int, Node>, rank: map<int, nat>, c: int, order: seq<int>)
    requires WellFormed(nodes, rank) && c in nodes && nodes[c].children == [] && IsTraversal(nodes, c, order)
    ensures order == [c]
  {
    if |order| > 1 {
      Descent(nodes, rank, c, order, rank[order[1]] + 1);
      assert false;
    }
  }

  /** Only the grid-mates of `c` and `c` itself may differ between `a` and
      `b`, and no floating component other than `c`. */
  ghost predicate Untouched(a: map<int, Node>, b: map<int, Node>, c: int)
    requires c in a
  {
    forall x | x in a && x in b && x != c && (a[x].floating || !SiblingOf(a, c, x)) :: b[x] == a[x]
  }

  /** Setting the geometry of one component changes its geometry only,
      and changes it iff one of the four values differs. */
  lemma {:induction false} GeometryUpdated(a: map<int, Node>, b: map<int, Node>, id: int, x: int, y: int, width: int, height: int)
    requires id in a && b == a[id := WithGeometry(a[id], x, y, width, height)]
    ensures GeometryOnly(a, b) && Untouched(a, b, id)
    ensures (a[id] != b[id]) == (a[id].x != x || a[id].y != y || a[id].width != width || a[id].height != height)
  {
  }

  /** What `UpdateGeometry` has achieved after placing `visit[..i]`,
      starting from `nodes0`. */
  ghost predicate Progress(nodes0: map<int, Node>, nodes: map<int, Node>, visit: seq<int>, i: int,
                           screenWidth: int, screenHeight: int)
    requires 0 < |visit| && 0 <= i <= |visit| && forall k :: 0 <= k < |visit| ==> visit[k] in nodes0
  {
    && GeometryOnly(nodes0, nodes)
    && (i == 0 ==> nodes == nodes0)
    && (forall k | 0 <= k < i && nodes0[visit[k]].floating ::
          nodes[visit[k]] == Floated(nodes0[visit[k]], screenWidth, screenHeight))
    && (forall x | x in nodes0 && nodes0[x].floating && x !in visit[..i] :: nodes[x] == nodes0[x])
    && (i > 0 && nodes0[visit[0]].parent.None? && !nodes0[visit[0]].floating ==>
          nodes[visit[0]] == WithGeometry(nodes0[visit[0]], 0, 0, screenWidth, screenHeight))
  }

  lemma {:induction false} GeometryOnlyTrans(a: map<int, Node>, b: map<int, Node>, c: map<int, Node>)
    requires GeometryOnly(a, b) && GeometryOnly(b, c)
    ensures GeometryOnly(a, c)
  {
    forall id | id in a
      ensures c[id] == WithGeometry(a[id], c[id].x, c[id].y, c[id].width, c[id].height)
    {
      assert b[id] == WithGeometry(a[id], b[id].x, b[id].y, b[id].width, b[id].height);
    }
  }

  lemma {:induction false} ScheduledTrans(a: map<int, Node>, b: map<int, Node>, c: map<int, Node>, d: set<int>, e: set<int>)
    requires a.Keys == b.Keys && Scheduled(a, b, d) && Scheduled(b, c, e) && d <= e
    ensures Scheduled(a, c, e)
  {
  }

  /** Placing `visit[i]` extends the progress of `UpdateGeometry` by one
      component. */
  lemma {:induction false} PlacedInTurn(nodes0: map<int, Node>, before: map<int, Node>, after: map<int, Node>, rank: map<int, nat>,
                     visit: seq<int>, i: int, screenWidth: int, screenHeight: int)
    requires 0 <= i < |visit| && Distinct(visit) && forall k :: 0 <= k < |visit| ==> visit[k] in nodes0
    requires WellFormed(before, rank)
    requires Progress(nodes0, before, visit, i, screenWidth, screenHeight)
    requires GeometryOnly(before, after) && Untouched(before, after, visit[i])
    requires before[visit[i]].floating ==> after[visit[i]] == Floated(before[visit[i]], screenWidth, screenHeight)
    requires i == 0 && before[visit[0]].parent.None? && !before[visit[0]].floating ==>
               after[visit[0]] == WithGeometry(before[visit[0]], 0, 0, screenWidth, screenHeight)
    ensures Progress(nodes0, after, visit, i + 1, screenWidth, screenHeight)
  {
    GeometryOnlyTrans(nodes0, before, after);
    var c := visit[i];
    assert visit[..i + 1] == visit[..i] + [c];
    assert nodes0[c].floating ==> before[c] == nodes0[c];
    forall k | 0 <= k < i && nodes0[visit[k]].floating
      ensures after[visit[k]] == Floated(nodes0[visit[k]], screenWidth, screenHeight)
    {
      assert before[visit[k]].floating;
    }
    if i > 0 && nodes0[visit[0]].parent.None? && !nodes0[visit[0]].floating {
      var r := visit[0];
      assert r != c;
      assert before[r].parent.None?;
      OrphanUnlisted(before, r);
      assert Unlisted(before, r);
      if before[c].parent.Some? && before[c].parent.value in before {
        var q := before[c].parent.value;
        assert q in before;
        assert r !in before[q].children;
      }
      assert !SiblingOf(before, c, r);
      assert after[r] == before[r];
    }
  }

  class Tui {
    const screen: Screen
    const store: Store
    var root: int
    var defaultStyle: Style
    var maxId: int
    var drawMap: set<int>

    /** The store is well formed, every stored id has been handed out, and
        the draw map holds stored components only. */
    ghost predicate Tracked()
      reads this, store
    {
      && store.Valid()
      && maxId >= -1
      && (forall id | id in store.nodes :: id <= maxId)
      && drawMap <= store.nodes.Keys
    }

    ghost predicate Valid()
      reads this, store
    {
      Tracked() && root in store.nodes
    }

    /** `New`, without the terminal and the log file: ids start after -1,
        the draw map is empty, and the root is a new box with fill layout. */
    constructor (screen: Screen, defaultStyle: Style)
      ensures Valid() && fresh(store)
      ensures this.screen == screen && this.defaultStyle == defaultStyle
      ensures root == 0 && maxId == 0 && drawMap == {}
      ensures store.nodes.Keys == {0}
      ensures store.nodes[0].parent.None? && store.nodes[0].children == []
      ensures store.nodes[0].layout == Fill && store.nodes[0].spec.BoxSpec?
    {
      this.screen := screen;
      this.defaultStyle := defaultStyle;
      root := -1;
      maxId := -1;
      drawMap := {};
      store := new Store();
      new;
      var id := NewBox();
      store.SetLayout(id, Fill);
      root := id;
    }

    /** `NextId`: one more than the last id handed out. */
    method NextId() returns (id: int)
      requires Tracked()
      modifies this
      ensures Tracked() && id == old(maxId) + 1 && maxId == id && id !in store.nodes
      ensures root == old(root) && drawMap == old(drawMap) && defaultStyle == old(defaultStyle)
    {
      maxId := maxId + 1;
      id := maxId;
    }

    /** `NewComponent`: a fresh component around `spec`, registered under
        the next id. */
    method NewComponent(spec: Spec) returns (id: int)
      requires Tracked()
      modifies this, store
      ensures Tracked() && id == old(maxId) + 1 && maxId == id && id !in old(store.nodes)
      ensures store.nodes == old(store.nodes)[id := Fresh(id, defaultStyle, spec)]
      ensures root == old(root) && drawMap == old(drawMap) && defaultStyle == old(defaultStyle)
    {
      id := NextId();
      store.Insert(Fresh(id, defaultStyle, spec));
    }

    /** `NewBox`: a component around a new box without border or padding. */
    method NewBox() returns (id: int)
      requires Tracked()
      modifies this, store
      ensures Tracked() && id == old(maxId) + 1 && maxId == id && id !in old(store.nodes)
      ensures id in store.nodes && store.nodes[id].spec.BoxSpec? && fresh(store.nodes[id].spec.box)
      ensures store.nodes == old(store.nodes)[id := Fresh(id, defaultStyle, store.nodes[id].spec)]
      ensures store.nodes[id].spec.box.padding == 0 && store.nodes[id].spec.box.border == Box.NoBorder
      ensures root == old(root) && drawMap == old(drawMap) && defaultStyle == old(defaultStyle)
    {
      var box := new Box.Box();
      id := NewComponent(BoxSpec(box));
    }

    /** `NewText`: a component around a new left-aligned, wrapping text. */
    method NewText(text: string) returns (id: int)
      requires Tracked()
      modifies this, store
      ensures Tracked() && id == old(maxId) + 1 && maxId == id && id !in old(store.nodes)
      ensures id in store.nodes && store.nodes[id].spec.TextSpec? && fresh(store.nodes[id].spec.text)
      ensures store.nodes == old(store.nodes)[id := Fresh(id, defaultStyle, store.nodes[id].spec)]
      ensures var t := store.nodes[id].spec.text; t.text == text && t.alignment == Text.Left && t.wordWrap
      ensures root == old(root) && drawMap == old(drawMap) && defaultStyle == old(defaultStyle)
    {
      var t := new Text.Text(text);
      id := NewComponent(TextSpec(t));
    }

    /** `AddToDrawMap`: the draw map is keyed by id, so adding twice is
        adding once. */
    method AddToDrawMap(id: int)
      requires Tracked() && id in store.nodes
      modifies this
      ensures Tracked() && drawMap == old(drawMap) + {id}
      ensures root == old(root) && maxId == old(maxId) && defaultStyle == old(defaultStyle)
    {
      drawMap := drawMap + {id};
    }

    method ClearDrawMap()
      requires Tracked()
      modifies this
      ensures Tracked() && drawMap == {}
      ensures root == old(root) && maxId == old(maxId) && defaultStyle == old(defaultStyle)
      ensures forall x :: x in store.nodes ==> LookOf(store.nodes[x].spec) == old(LookOf(store.nodes[x].spec))
    {
      drawMap := {};
    }

    /** `SetGeometry`: all four setters run (each call stands left of its
        `||`), and the component is marked for redrawing iff one of the four
        values changed. */
    method SetGeometry(id: int, x: int, y: int, width: int, height: int) returns (changed: bool)
      requires Tracked() && id in store.nodes
      modifies this, store
      ensures Tracked() && store.rank == old(store.rank)
      ensures root == old(root) && maxId == old(maxId) && defaultStyle == old(defaultStyle)
      ensures store.nodes == old(store.nodes)[id := WithGeometry(old(store.nodes)[id], x, y, width, height)]
      ensures var n := old(store.nodes)[id];
        changed == (n.x != x || n.y != y || n.width != width || n.height != height)
      ensures drawMap == old(drawMap) + (if changed then {id} else {})
      ensures GeometryOnly(old(store.nodes), store.nodes) && Untouched(old(store.nodes), store.nodes, id)
      ensures Scheduled(old(store.nodes), store.nodes, drawMap)
    {
      changed := store.SetGeometry(id, x, y, width, height);
      if changed {
        AddToDrawMap(id);
      }
      GeometryUpdated(old(store.nodes), store.nodes, id, x, y, width, height);
    }

    /** `GetComponent`: the component is found iff the traversal from the
        root reaches it. */
    method GetComponent(id: int) returns (found: Option<int>, ghost order: seq<int>)
      requires Valid()
      ensures IsTraversal(store.nodes, root, order)
      ensures found == (if id in order then Some(id) else None)
    {
      var visit := store.Traverse(root);
      order := visit;
      var listed := Search(visit, id);
      found := if listed then Some(id) else None;
    }

    /** `RemoveComponent`: a component the root does not reach is left
        alone. Otherwise a component with a parent is taken out of its
        parent's list and forgets its children, and then the components of
        its traversal lose parent and children: for such a component that
        is itself alone, while for a root it is its whole subtree. */
    method RemoveComponent(id: int) returns (ghost reach: seq<int>, ghost order: seq<int>)
      requires Valid()
      modifies store
      ensures Valid() && store.rank == old(store.rank)
      ensures IsTraversal(old(store.nodes), root, reach)
      ensures id !in reach ==> store.nodes == old(store.nodes)
      ensures id in reach ==>
                && IsTraversal(Unlinked(old(store.nodes), id), id, order)
                && store.nodes == Cleared(Unlinked(old(store.nodes), id), order)
      ensures id in reach && old(store.nodes)[id].parent.Some? ==> order == [id]
    {
      var found;
      found, reach := GetComponent(id);
      order := [];
      if found.None? {
        return;
      }
      Unlink(id);
      var nodes0 := store.nodes;
      var visit := store.Traverse(id);
      order := visit;
      if old(store.nodes)[id].parent.Some? {
        LeafTraversal(nodes0, store.rank, id, visit);
      }
      ClearTraversal(id, visit);
    }

    /** The first step of `RemoveComponent`: a component with a parent is
        taken out of its parent's list and forgets its children. */
    method Unlink(id: int)
      requires store.Valid() && id in store.nodes
      modifies store
      ensures store.Valid() && store.rank == old(store.rank)
      ensures store.nodes == Unlinked(old(store.nodes), id) && store.nodes.Keys == old(store.nodes).Keys
      ensures Unlisted(store.nodes, id)
    {
      if store.nodes[id].parent.Some? {
        var err := store.RemoveChild(store.nodes[id].parent.value, id);
        store.RemoveChildren(id);
      }
      UnlinkedUnlisted(old(store.nodes), store.rank, id);
    }

    /** The loop of `RemoveComponent` over the traversal `visit` from `c`:
        each component in turn loses its parent and its children. */
    method ClearTraversal(c: int, visit: seq<int>)
      requires store.Valid() && IsTraversal(store.nodes, c, visit) && ParentsFirst(store.nodes, visit)
      requires Unlisted(store.nodes, c)
      modifies store
      ensures store.Valid() && store.rank == old(store.rank)
      ensures store.nodes == Cleared(old(store.nodes), visit) && store.nodes.Keys == old(store.nodes).Keys
    {
      var i := 0;
      while i < |visit|
        invariant 0 <= i <= |visit|
        invariant store.Valid() && store.rank == old(store.rank)
        invariant ClearedUpTo(old(store.nodes), store.nodes, visit, i)
      {
        UnlistedAtTurn(old(store.nodes), store.nodes, store.rank, c, visit, i);
        ghost var before := store.nodes;
        store.DetachParent(visit[i]);
        store.RemoveChildren(visit[i]);
        ClearedStep(old(store.nodes), before, store.nodes, visit, i);
        i := i + 1;
      }
      ClearedAll(old(store.nodes), store.nodes, visit);
    }

    // ----- Layout -----

    /** `CalculateGridGeometry` for a member `c` of a grid: the non-floating
        children of its parent, by ascending id, are laid side by side along
        the grid's axis with the sizes the grid computation gives them, and
        are returned; nothing else changes, and the members whose geometry
        changed are marked for redrawing. */
    method CalculateGridGeometry(c: int) returns (ids: seq<int>)
      requires Tracked() && c in store.nodes && store.nodes[c].parent.Some?
      requires IsGrid(store.nodes[store.nodes[c].parent.value].layout)
      modifies this, store
      ensures Tracked() && store.rank == old(store.rank)
      ensures root == old(root) && maxId == old(maxId) && defaultStyle == old(defaultStyle)
      ensures GeometryOnly(old(store.nodes), store.nodes)
      ensures ids == GridMembers(old(store.nodes), c)
      ensures forall k | 0 <= k < |ids| ::
                store.nodes[ids[k]] == GridPlaced(old(store.nodes), old(store.nodes)[c].parent.value, ids, k)
      ensures forall x | x in old(store.nodes) && x !in ids :: store.nodes[x] == old(store.nodes)[x]
      ensures MarkedExactly(old(drawMap), drawMap, old(store.nodes), store.nodes, ids)
    {
      var p, members, sizes := GridPlan(c);
      if |members| == 0 {
        return [];
      }
      ghost var nodes0 := store.nodes;
      ghost var parent := nodes0[p];
      ids := PlaceMembers(members, p, sizes);
      forall k | 0 <= k < |ids|
        ensures store.nodes[ids[k]] == GridPlaced(nodes0, p, ids, k)
      {
        var g := Grid.Placement(parent.layout == HorizontalGrid, parent.padding, parent.width, parent.height, sizes, k);
        assert GridPlaced(nodes0, p, ids, k) == WithGeometry(nodes0[ids[k]], g.0, g.1, g.2, g.3);
      }
    }

    /** The first half of `CalculateGridGeometry`: the parent, the members
        of its grid, and their sizes along the grid's axis. */
    method GridPlan(c: int) returns (p: int, members: seq<int>, sizes: seq<int>)
      requires Tracked() && c in store.nodes && store.nodes[c].parent.Some?
      requires IsGrid(store.nodes[store.nodes[c].parent.value].layout)
      ensures p == store.nodes[c].parent.value && p in store.nodes
      ensures members == GridMembers(store.nodes, c) && Distinct(members)
      ensures forall k :: 0 <= k < |members| ==> members[k] in store.nodes && members[k] != p
      ensures var vertical := store.nodes[p].layout == VerticalGrid;
        members != [] ==> sizes == Grid.GridSizes(Axis(store.nodes, members, vertical), vertical, TargetSize(store.nodes[p]))
      ensures |sizes| == |members|
    {
      p := store.nodes[c].parent.value;
      var parent := store.nodes[p];
      var vertical := parent.layout == VerticalGrid;
      var targetSize := TargetSize(parent);
      var siblings := GetSiblings(store.nodes, c);
      SiblingsStored(store.nodes, c);
      members := CollectMembers(siblings);
      assert members == GridMembers(store.nodes, c);
      if |members| == 0 {
        return p, members, [];
      }
      sizes := Grid.ComputeSizes(Axis(store.nodes, members, vertical), vertical, targetSize);
      forall k | 0 <= k < |members|
        ensures members[k] in store.nodes && members[k] != p
      {
        assert members[k] in parent.children;
        var m :| 0 <= m < |parent.children| && parent.children[m] == members[k];
      }
    }

    /** The loop of `CalculateGridGeometry` that drops floating siblings. */
    method CollectMembers(siblings: seq<int>) returns (members: seq<int>)
      requires forall k :: 0 <= k < |siblings| ==> siblings[k] in store.nodes
      ensures members == NonFloating(store.nodes, siblings)
    {
      members := [];
      var i := 0;
      while i < |siblings|
        invariant 0 <= i <= |siblings|
        invariant members == NonFloating(store.nodes, siblings[..i])
      {
        assert siblings[..i + 1][..i] == siblings[..i];
        if !store.nodes[siblings[i]].floating {
          members := members + [siblings[i]];
        }
        i := i + 1;
      }
      assert siblings[..i] == siblings;
    }

    /** The placement loop of `CalculateGridGeometry`: a running offset from
        the parent's padding along the axis, the padding and the parent's
        extent less twice the padding across it. */
    method PlaceMembers(members: seq<int>, p: int, sizes: seq<int>) returns (ids: seq<int>)
      requires Tracked() && p in store.nodes && |sizes| == |members|
      requires Distinct(members)
      requires forall k :: 0 <= k < |members| ==> members[k] in store.nodes && members[k] != p
      modifies this, store
      ensures Tracked() && store.rank == old(store.rank)
      ensures root == old(root) && maxId == old(maxId) && defaultStyle == old(defaultStyle)
      ensures ids == members
      ensures GeometryOnly(old(store.nodes), store.nodes)
      ensures var parent := old(store.nodes)[p];
        forall k | 0 <= k < |members| ::
          var g := Grid.Placement(parent.layout == HorizontalGrid, parent.padding, parent.width, parent.height, sizes, k);
          store.nodes[members[k]] == WithGeometry(old(store.nodes)[members[k]], g.0, g.1, g.2, g.3)
      ensures forall x | x in old(store.nodes) && x !in members :: store.nodes[x] == old(store.nodes)[x]
      ensures MarkedExactly(old(drawMap), drawMap, old(store.nodes), store.nodes, members)
    {
      var parent := store.nodes[p];
      var horizontal := parent.layout == HorizontalGrid;
      var offset := parent.padding;
      ids := [];
      var i := 0;
      while i < |members|
        invariant 0 <= i <= |members| && ids == members[..i]
        invariant Tracked() && store.rank == old(store.rank)
        invariant root == old(root) && maxId == old(maxId) && defaultStyle == old(defaultStyle)
        invariant offset == Grid.Offset(parent.padding, sizes, i)
        invariant GridProgress(old(store.nodes), store.nodes, members, i, horizontal, parent.padding, parent.width, parent.height, sizes)
        invariant MarkedExactly(old(drawMap), drawMap, old(store.nodes), store.nodes, members[..i])
      {
        PlaceMember(old(store.nodes), old(drawMap), members, i, parent, sizes, offset);
        Grid.OffsetsTile(parent.padding, sizes, i);
        offset := offset + sizes[i];
        ids := ids + [members[i]];
        i := i + 1;
      }
      assert members[..i] == members;
    }

    /** The body of the placement loop: places `members[i]` at `offset`
        along the axis. */
    method PlaceMember(ghost nodes0: map<int, Node>, ghost marked0: set<int>, members: seq<int>, i: int,
                       parent: Node, sizes: seq<int>, offset: int)
      requires 0 <= i < |members| == |sizes| && Distinct(members)
      requires forall k :: 0 <= k < |members| ==> members[k] in nodes0
      requires Tracked() && store.nodes.Keys == nodes0.Keys
      requires offset == Grid.Offset(parent.padding, sizes, i)
      requires GridProgress(nodes0, store.nodes, members, i, parent.layout == HorizontalGrid,
                            parent.padding, parent.width, parent.height, sizes)
      requires MarkedExactly(marked0, drawMap, nodes0, store.nodes, members[..i])
      modifies this, store
      ensures Tracked() && store.rank == old(store.rank)
      ensures root == old(root) && maxId == old(maxId) && defaultStyle == old(defaultStyle)
      ensures GridProgress(nodes0, store.nodes, members, i + 1, parent.layout == HorizontalGrid,
                           parent.padding, parent.width, parent.height, sizes)
      ensures MarkedExactly(marked0, drawMap, nodes0, store.nodes, members[..i + 1])
    {
      var c := members[i];
      var horizontal := parent.layout == HorizontalGrid;
      ghost var before, marked := store.nodes, drawMap;
      var changed;
      if horizontal {
        changed := SetGeometry(c, offset, parent.padding, sizes[i], parent.height - parent.padding * 2);
      } else {
        changed := SetGeometry(c, parent.padding, offset, parent.width - parent.padding * 2, sizes[i]);
      }
      PlacedMember(nodes0, before, store.nodes, marked0, marked, drawMap, changed,
                   members, i, horizontal, parent.padding, parent.width, parent.height, sizes);
    }

    /** What every placement step keeps: the invariant, the ids and the
        default style; only offsets and sizes change, and every component
        that changed is marked for redrawing. */
    twostate predicate Kept()
      reads this, store
    {
      && Valid() && store.rank == old(store.rank)
      && root == old(root) && maxId == old(maxId) && defaultStyle == old(defaultStyle)
      && GeometryOnly(old(store.nodes), store.nodes)
      && old(drawMap) <= drawMap && Scheduled(old(store.nodes), store.nodes, drawMap)
    }

    /** One pass of the loop of `UpdateGeometry` over component `c`: skipped
        when already processed; otherwise a floating component is aligned on
        the screen, a root fills the screen, a child of a fill parent fills
        the parent less its padding, and a member of a grid has the whole
        grid laid out, its members then processed. */
    method PlaceComponent(c: int, processed: set<int>) returns (done: set<int>)
      requires Valid() && c in store.nodes
      modifies this, store
      ensures Kept()
      ensures processed <= done
      ensures forall x | x in done && x !in processed :: x in store.nodes && !store.nodes[x].floating
      ensures Untouched(old(store.nodes), store.nodes, c)
      ensures c in processed ==> store.nodes == old(store.nodes) && drawMap == old(drawMap) && done == processed
      ensures var n := old(store.nodes)[c];
        c !in processed && n.floating ==>
          store.nodes == old(store.nodes)[c := Floated(n, screen.width, screen.height)] && done == processed
      ensures var n := old(store.nodes)[c];
        c !in processed && !n.floating && n.parent.None? ==>
          store.nodes == old(store.nodes)[c := WithGeometry(n, 0, 0, screen.width, screen.height)]
          && done == processed + {c}
      ensures var n := old(store.nodes)[c];
        c !in processed && !n.floating && n.parent.Some? && old(store.nodes)[n.parent.value].layout == Fill ==>
          var parent := old(store.nodes)[n.parent.value];
          && store.nodes == old(store.nodes)[c := WithGeometry(n, parent.padding, parent.padding,
                                                               parent.width - parent.padding, parent.height - parent.padding)]
          && done == processed + {c}
      ensures var n := old(store.nodes)[c];
        c !in processed && !n.floating && n.parent.Some? && IsGrid(old(store.nodes)[n.parent.value].layout) ==>
          GridLaidOut(old(store.nodes), store.nodes, c, processed, done)
      ensures var n := old(store.nodes)[c];
        c !in processed && !n.floating && n.parent.Some? && old(store.nodes)[n.parent.value].layout == Float ==>
          store.nodes == old(store.nodes) && drawMap == old(drawMap) && done == processed
    {
      done := processed;
      if c in processed {
        return;
      }
      var n := store.nodes[c];
      if n.floating || n.parent.None? || store.nodes[n.parent.value].layout == Fill {
        PlaceAlone(c);
        if !n.floating {
          done := done + {c};
        }
      } else if IsGrid(store.nodes[n.parent.value].layout) {
        done := PlaceGrid(c, processed);
      }
    }

    /** The rules of `PlaceComponent` that place `c` on its own: a floating
        component is aligned on the screen, a root fills the screen, and a
        child of a fill parent fills the parent less its padding. */
    method PlaceAlone(c: int)
      requires Valid() && c in store.nodes
      requires var n := store.nodes[c];
        n.floating || n.parent.None? || store.nodes[n.parent.value].layout == Fill
      modifies this, store
      ensures Kept()
      ensures Untouched(old(store.nodes), store.nodes, c)
      ensures var n := old(store.nodes)[c];
        n.floating ==> store.nodes == old(store.nodes)[c := Floated(n, screen.width, screen.height)]
      ensures var n := old(store.nodes)[c];
        !n.floating && n.parent.None? ==>
          store.nodes == old(store.nodes)[c := WithGeometry(n, 0, 0, screen.width, screen.height)]
      ensures var n := old(store.nodes)[c];
        !n.floating && n.parent.Some? ==>
          var parent := old(store.nodes)[n.parent.value];
          store.nodes == old(store.nodes)[c := WithGeometry(n, parent.padding, parent.padding,
                                                            parent.width - parent.padding, parent.height - parent.padding)]
    {
      var n := store.nodes[c];
      var changed;
      if n.floating {
        var x := HorizontalOrigin(n.horizontalAlignment, screen.width, n.width);
        var y := VerticalOrigin(n.verticalAlignment, screen.height, n.height);
        changed := SetGeometry(c, x, y, n.width, n.height);
      } else if n.parent.None? {
        changed := SetGeometry(c, 0, 0, screen.width, screen.height);
      } else {
        var parent := store.nodes[n.parent.value];
        changed := SetGeometry(c, parent.padding, parent.padding, parent.width - parent.padding, parent.height - parent.padding);
      }
    }

    /** The grid rule of `PlaceComponent`: the whole grid is laid out and
        its members are processed. */
    method PlaceGrid(c: int, processed: set<int>) returns (done: set<int>)
      requires Valid() && c in store.nodes && store.nodes[c].parent.Some?
      requires IsGrid(store.nodes[store.nodes[c].parent.value].layout)
      modifies this, store
      ensures Kept()
      ensures Untouched(old(store.nodes), store.nodes, c)
      ensures processed <= done
      ensures forall x | x in done && x !in processed :: x in store.nodes && !store.nodes[x].floating
      ensures GridLaidOut(old(store.nodes), store.nodes, c, processed, done)
    {
      var ids := CalculateGridGeometry(c);
      done := MarkProcessed(processed, ids);
      forall x | x in done && x !in processed
        ensures x in store.nodes && !store.nodes[x].floating
      {
        assert x in ids;
        assert x in old(store.nodes) && !old(store.nodes)[x].floating;
      }
    }

    /** `UpdateGeometry`: the components of the traversal from `start` (the
        root when absent) are placed in order, each at most once. Only
        offsets and sizes change, and every component whose geometry changed
        is marked for redrawing; a floating component of the traversal ends
        up aligned on the screen, and a root start that is not floating ends
        up covering the screen. */
    method UpdateGeometry(start: Option<int>) returns (ghost order: seq<int>)
      requires Valid() && (start.Some? ==> start.value in store.nodes)
      modifies this, store
      ensures Valid() && store.rank == old(store.rank)
      ensures root == old(root) && maxId == old(maxId) && defaultStyle == old(defaultStyle)
      ensures IsTraversal(old(store.nodes), if start.Some? then start.value else root, order)
      ensures GeometryOnly(old(store.nodes), store.nodes)
      ensures old(drawMap) <= drawMap && Scheduled(old(store.nodes), store.nodes, drawMap)
      ensures forall k | 0 <= k < |order| && old(store.nodes)[order[k]].floating ::
                store.nodes[order[k]] == Floated(old(store.nodes)[order[k]], screen.width, screen.height)
      ensures var c := if start.Some? then start.value else root;
        old(store.nodes)[c].parent.None? && !old(store.nodes)[c].floating ==>
          store.nodes[c] == WithGeometry(old(store.nodes)[c], 0, 0, screen.width, screen.height)
    {
      var c := if start.Some? then start.value else root;
      var visit := store.Traverse(c);
      order := visit;
      var processed: set<int> := {};
      var i := 0;
      while i < |visit|
        invariant 0 <= i <= |visit|
        invariant Valid() && store.rank == old(store.rank)
        invariant root == old(root) && maxId == old(maxId) && defaultStyle == old(defaultStyle)
        invariant Progress(old(store.nodes), store.nodes, visit, i, screen.width, screen.height)
        invariant old(drawMap) <= drawMap && Scheduled(old(store.nodes), store.nodes, drawMap)
        invariant i == 0 ==> processed == {}
        invariant forall x | x in processed :: x in store.nodes && !store.nodes[x].floating
      {
        processed := PlaceNext(old(store.nodes), old(drawMap), visit, i, processed);
        i := i + 1;
      }
    }

    /** The body of the loop of `UpdateGeometry`: places `visit[i]`. */
    method PlaceNext(ghost nodes0: map<int, Node>, ghost marked0: set<int>, visit: seq<int>, i: int, processed: set<int>)
      returns (done: set<int>)
      requires 0 <= i < |visit| && Distinct(visit) && forall k :: 0 <= k < |visit| ==> visit[k] in nodes0
      requires Valid() && Progress(nodes0, store.nodes, visit, i, screen.width, screen.height)
      requires marked0 <= drawMap && Scheduled(nodes0, store.nodes, drawMap)
      requires i == 0 ==> processed == {}
      requires forall x | x in processed :: x in store.nodes && !store.nodes[x].floating
      modifies this, store
      ensures Valid() && store.rank == old(store.rank)
      ensures root == old(root) && maxId == old(maxId) && defaultStyle == old(defaultStyle)
      ensures Progress(nodes0, store.nodes, visit, i + 1, screen.width, screen.height)
      ensures marked0 <= drawMap && Scheduled(nodes0, store.nodes, drawMap)
      ensures forall x | x in done :: x in store.nodes && !store.nodes[x].floating
    {
      ghost var before, marked := store.nodes, drawMap;
      done := PlaceComponent(visit[i], processed);
      PlacedInTurn(nodes0, before, store.nodes, store.rank, visit, i, screen.width, screen.height);
      ScheduledTrans(nodes0, before, store.nodes, marked, drawMap);
    }

    // ----- Drawing -----

    /** `Component.Draw`: the component's box or text paints it at its
        absolute position, as its look says; nothing outside its rectangle
        changes. */
    method DrawComponent(id: int) returns (outcome: Result<()>)
      requires Tracked() && id in store.nodes
      modifies screen
      ensures screen.width == old(screen.width) && screen.height == old(screen.height)
      ensures PaintsAs(screen.cells, old(screen.cells), store.nodes, store.rank, id, LookOf(store.nodes[id].spec), outcome)
      ensures forall x :: x in store.nodes ==> LookOf(store.nodes[x].spec) == old(LookOf(store.nodes[x].spec))
      ensures Confined(screen.cells, old(screen.cells), AbsX(store.nodes, store.rank, id), AbsY(store.nodes, store.rank, id),
                       store.nodes[id].width, store.nodes[id].height)
    {
      var n := store.nodes[id];
      var left, top := AbsX(store.nodes, store.rank, id), AbsY(store.nodes, store.rank, id);
      match n.spec
      case BoxSpec(box) =>
        box.Draw(screen, left, top, n.width, n.height, n.style);
        outcome := Ok(());
      case TextSpec(text) =>
        ghost var lines, rendered;
        outcome, lines, rendered := text.Draw(screen, left, top, n.width, n.height, n.style);
        Text.DrawnConfined(screen.cells, old(screen.cells), left, top, n.width, n.height, n.style,
                           text.text, text.alignment, outcome, lines, rendered);
    }

    /** `DrawAll` with `fullyCovered` for the occlusion test: the draw map's
        components that are not fully covered are painted once each, by
        ascending z-index and then id, and the map is emptied. A paint that
        panics stops the frame there and leaves the map as it was. `frames`
        are the screens after each paint; only cells inside the painted
        components' rectangles change. */
    method DrawAll(fullyCovered: int -> bool)
        returns (queue: seq<int>, outcome: Result<()>, ghost looks: seq<Look>, ghost frames: seq<map<(int, int), Cell>>)
      requires Tracked()
      modifies this, screen
      ensures Tracked()
      ensures root == old(root) && maxId == old(maxId) && defaultStyle == old(defaultStyle)
      ensures forall x :: x in queue <==> x in old(drawMap) && !fullyCovered(x)
      ensures Distinct(queue) && SortedBy(queue, ZKey(store.nodes))
      ensures outcome.Ok? ==> drawMap == {}
      ensures outcome.Panic? ==> drawMap == old(drawMap)
      ensures screen.width == old(screen.width) && screen.height == old(screen.height)
      ensures forall k :: 0 <= k < |queue| ==> queue[k] in store.nodes
      ensures |looks| == |queue| && forall k :: 0 <= k < |queue| ==> looks[k] == LookOf(store.nodes[queue[k]].spec)
      ensures PaintedInTurn(store.nodes, store.rank, queue, looks, frames, outcome)
      ensures frames[0] == old(screen.cells) && frames[|frames| - 1] == screen.cells
      ensures forall p :: p in old(screen.cells) && !Covered(store.nodes, store.rank, queue, p) ==>
                p in screen.cells && screen.cells[p] == old(screen.cells)[p]
      ensures forall p :: p in screen.cells ==> p in old(screen.cells) || Covered(store.nodes, store.rank, queue, p)
    {
      queue := DrawQueue(fullyCovered);
      outcome, looks, frames := Paint(queue);
      if outcome.Ok? {
        ClearDrawMap();
      }
    }

    /** The draw queue of `DrawAll`: the draw map's components that are not
        fully covered, sorted by z-index and then id. */
    method DrawQueue(fullyCovered: int -> bool) returns (queue: seq<int>)
      requires Tracked()
      ensures forall x :: x in queue <==> x in drawMap && !fullyCovered(x)
      ensures Distinct(queue) && SortedBy(queue, ZKey(store.nodes))
      ensures forall k :: 0 <= k < |queue| ==> queue[k] in store.nodes
    {
      var pending := Uncovered(fullyCovered);
      queue := ZOrder(pending, store.nodes);
      forall k | 0 <= k < |queue|
        ensures queue[k] in store.nodes
      {
        assert queue[k] in pending;
      }
    }

    /** The collecting loop of `DrawAll`: the draw map's components that are
        not fully covered, each once, in the map's iteration order. */
    method Uncovered(fullyCovered: int -> bool) returns (pending: seq<int>)
      requires Tracked()
      ensures forall x :: x in pending <==> x in drawMap && !fullyCovered(x)
      ensures forall x | x in pending :: x in store.nodes
      ensures Distinct(pending)
    {
      var rest := drawMap;
      pending := [];
      while rest != {}
        invariant rest <= drawMap
        invariant forall x :: x in pending <==> x in drawMap && x !in rest && !fullyCovered(x)
        invariant Distinct(pending)
        decreases |rest|
      {
        HasElement(rest);
        var c :| c in rest;
        if !fullyCovered(c) {
          pending := pending + [c];
        }
        rest := rest - {c};
      }
    }

    /** The painting loop of `DrawAll`: the components of `queue` in turn,
        until one panics. */
    method Paint(queue: seq<int>) returns (outcome: Result<()>, ghost looks: seq<Look>, ghost frames: seq<map<(int, int), Cell>>)
      requires Tracked() && forall k :: 0 <= k < |queue| ==> queue[k] in store.nodes
      modifies screen
      ensures screen.width == old(screen.width) && screen.height == old(screen.height)
      ensures |looks| == |queue| && forall k :: 0 <= k < |queue| ==> looks[k] == LookOf(store.nodes[queue[k]].spec)
      ensures PaintedInTurn(store.nodes, store.rank, queue, looks, frames, outcome)
      ensures frames[0] == old(screen.cells) && frames[|frames| - 1] == screen.cells
      ensures forall p :: p in old(screen.cells) && !Covered(store.nodes, store.rank, queue, p) ==>
                p in screen.cells && screen.cells[p] == old(screen.cells)[p]
      ensures forall p :: p in screen.cells ==> p in old(screen.cells) || Covered(store.nodes, store.rank, queue, p)
    {
      looks := Looks(store.nodes, queue);
      frames := [screen.cells];
      var i := 0;
      while i < |queue|
        invariant 0 <= i <= |queue|
        invariant screen.width == old(screen.width) && screen.height == old(screen.height)
        invariant |frames| == i + 1 && frames[0] == old(screen.cells) && frames[i] == screen.cells
        invariant forall k :: 0 <= k < |queue| ==> looks[k] == LookOf(store.nodes[queue[k]].spec)
        invariant PaintedSoFar(store.nodes, store.rank, queue, looks, frames)
      {
        outcome := DrawComponent(queue[i]);
        PaintedNext(store.nodes, store.rank, queue, looks, frames, screen.cells, outcome);
        frames := frames + [screen.cells];
        if outcome.Panic? {
          CoveredFromFrames(store.nodes, store.rank, queue, looks, frames, outcome);
          return;
        }
        i := i + 1;
      }
      PaintedAll(store.nodes, store.rank, queue, looks, frames);
      outcome := Ok(());
      CoveredFromFrames(store.nodes, store.rank, queue, looks, frames, outcome);
    }
  }

  /** The loop of `UpdateGeometry` that records the members of a grid as
      processed. */
  method MarkProcessed(processed: set<int>, ids: seq<int>) returns (done: set<int>)
    ensures processed <= done
    ensures forall x :: x in done <==> x in processed || x in ids
  {
    done := processed;
    var k := 0;
    while k < |ids|
      invariant 0 <= k <= |ids| && processed <= done
      invariant forall x :: x in done <==> x in processed || x in ids[..k]
    {
      assert ids[..k + 1] == ids[..k] + [ids[k]];
      done := done + {ids[k]};
      k := k + 1;
    }
    assert ids[..k] == ids;
  }

  /** The search loop of `GetComponent`: the first element equal to `x`,
      if any. */
  method Search(s: seq<int>, x: int) returns (found: bool)
    ensures found <==> x in s
  {
    var i := 0;
    while i < |s|
      invariant 0 <= i <= |s| && x !in s[..i]
    {
      if s[i] == x {
        return true;
      }
      assert s[..i + 1] == s[..i] + [s[i]];
      i := i + 1;
    }
    assert s[..i] == s;
    return false;
  }

  /** Painting one more component covers one more rectangle. */
  lemma {:induction false} CoveredFrame(nodes: map<int, Node>, rank: map<int, nat>, before: seq<int>, after: seq<int>, i: int)
    requires WellFormed(nodes, rank) && forall k :: 0 <= k < |after| ==> after[k] in nodes
    requires 0 <= i && |after| == i + 1 && after[..i] == before
    ensures forall p :: Covered(nodes, rank, after, p) <==>
              Covered(nodes, rank, before, p) || InRect(p, AbsX(nodes, rank, after[i]), AbsY(nodes, rank, after[i]),
                                                        nodes[after[i]].width, nodes[after[i]].height)
  {
  }

  /** A cell covered by a prefix of the queue is covered by the queue. */
  lemma {:induction false} CoveredPrefix(nodes: map<int, Node>, rank: map<int, nat>, queue: seq<int>, i: int)
    requires WellFormed(nodes, rank) && forall k :: 0 <= k < |queue| ==> queue[k] in nodes
    requires 0 <= i <= |queue|
    ensures forall p :: Covered(nodes, rank, queue[..i], p) ==> Covered(nodes, rank, queue, p)
    decreases |queue| - i
  {
    if i < |queue| {
      CoveredPrefix(nodes, rank, queue, i + 1);
      assert queue[..i + 1][..i] == queue[..i];
    } else {
      assert queue[..i] == queue;
    }
  }
}

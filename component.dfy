/** Components and the tree they form. Components refer to each other by id:
    the store maps every id to its component, whose `children` list holds the
    ids of its children in order and whose `parent` holds its parent's id. */
module Component {
  import opened Base
  import Box
  import Text

  datatype Layout = HorizontalGrid | VerticalGrid | Fill | Float

  datatype HorizontalAlignment = AlignLeft | AlignCenter | AlignRight

  datatype VerticalAlignment = AlignTop | AlignMiddle | AlignBottom

  /** What draws a component: a box or a text. */
  datatype Spec = BoxSpec(box: Box.Box) | TextSpec(text: Text.Text)

  datatype Node = Node(
    id: int,
    width: int,
    height: int,
    minWidth: int,
    minHeight: int,
    maxWidth: int,
    maxHeight: int,
    x: int,
    y: int,
    children: seq<int>,
    parent: Option<int>,
    style: Style,
    layout: Layout,
    floating: bool,
    zIndex: int,
    spec: Spec,
    padding: int,
    widthPercent: int,
    heightPercent: int,
    horizontalAlignment: HorizontalAlignment,
    verticalAlignment: VerticalAlignment)

  datatype TreeError = NotFound(id: int)

  /** The component `NewComponent` builds around `spec`: no size, no offset,
      no limits (-1), z-index -1, fill layout, not floating, and neither
      parent nor children. */
  function Fresh(id: int, style: Style, spec: Spec): Node
  {
    Node(id, 0, 0, -1, -1, -1, -1, 0, 0, [], None, style, Fill, false, -1, spec, 0, 0, 0, AlignLeft, AlignTop)
  }

  /** The store is a forest: a parent exists and has a smaller rank than its
      child, so following parents always ends; and the children lists are
      consistent with the parent pointers (see `Linked`). */
  ghost predicate WellFormed(nodes: map<int, Node>, rank: map<int, nat>)
  {
    Ranked(nodes, rank) && Linked(nodes)
  }

  ghost predicate Ranked(nodes: map<int, Node>, rank: map<int, nat>)
  {
    && nodes.Keys <= rank.Keys
    && (forall id | id in nodes && nodes[id].parent.Some? ::
          nodes[id].parent.value in nodes && rank[nodes[id].parent.value] < rank[id])
  }

  /** Every component sits under its own id, no child is listed twice, and a
      listed child points back to the component that lists it. A parent
      pointer need not be matched by a listing: `RemoveChild` unlists a child
      without clearing its parent. */
  ghost predicate Linked(nodes: map<int, Node>)
  {
    && (forall id | id in nodes :: nodes[id].id == id)
    && (forall id | id in nodes :: Distinct(nodes[id].children))
    && (forall id, k | id in nodes && 0 <= k < |nodes[id].children| ::
          nodes[id].children[k] in nodes && nodes[nodes[id].children[k]].parent == Some(id))
  }

  /** Two stores with the same components, parents and children. */
  ghost predicate SameLinks(a: map<int, Node>, b: map<int, Node>)
  {
    && a.Keys == b.Keys
    && forall id | id in a :: a[id].id == b[id].id && a[id].parent == b[id].parent && a[id].children == b[id].children
  }

  /** The component with a new offset and size. */
  function WithGeometry(n: Node, x: int, y: int, width: int, height: int): Node
  {
    n.(x := x, y := y, width := width, height := height)
  }

  /** `b` differs from `a` at most in the offsets and sizes of its
      components. */
  ghost predicate GeometryOnly(a: map<int, Node>, b: map<int, Node>)
  {
    && a.Keys == b.Keys
    && forall id | id in a :: b[id] == WithGeometry(a[id], b[id].x, b[id].y, b[id].width, b[id].height)
  }

  lemma {:induction false} UpdateTwice(m: map<int, Node>, k: int, a: Node, b: Node)
    ensures m[k := a][k := b] == m[k := b]
  {
  }

  predicate IsGrid(layout: Layout)
  {
    layout == HorizontalGrid || layout == VerticalGrid
  }

  /** Changing anything but the links keeps a store well formed. */
  lemma {:induction false} LinksKept(a: map<int, Node>, b: map<int, Node>, rank: map<int, nat>)
    requires WellFormed(a, rank) && SameLinks(a, b)
    ensures WellFormed(b, rank)
  {
    assert Ranked(b, rank);
    forall id, k | id in b && 0 <= k < |b[id].children|
      ensures b[id].children[k] in b && b[b[id].children[k]].parent == Some(id)
    {
      var x := a[id].children[k];
      assert x in a && b[x].parent == a[x].parent;
    }
  }

  /** Replacing a children list by a repetition-free selection from it keeps
      a store well formed. */
  lemma {:induction false} ChildrenReplaced(nodes: map<int, Node>, rank: map<int, nat>, p: int, cs: seq<int>)
    requires WellFormed(nodes, rank) && p in nodes
    requires Distinct(cs) && forall x :: x in cs ==> x in nodes[p].children
    ensures WellFormed(nodes[p := nodes[p].(children := cs)], rank)
  {
    var b := nodes[p := nodes[p].(children := cs)];
    assert Ranked(b, rank);
    forall id, k | id in b && 0 <= k < |b[id].children|
      ensures b[id].children[k] in b && b[b[id].children[k]].parent == Some(id)
    {
      if id == p {
        assert cs[k] in cs;
        var j :| 0 <= j < |nodes[p].children| && nodes[p].children[j] == cs[k];
      }
    }
  }

  /** Clearing the parent of a component no one lists keeps a store well
      formed. */
  lemma {:induction false} ParentCleared(nodes: map<int, Node>, rank: map<int, nat>, id: int)
    requires WellFormed(nodes, rank) && id in nodes && Unlisted(nodes, id)
    ensures WellFormed(nodes[id := nodes[id].(parent := None)], rank)
  {
    var b := nodes[id := nodes[id].(parent := None)];
    forall q, k | q in b && 0 <= k < |b[q].children|
      ensures b[q].children[k] in b && b[b[q].children[k]].parent == Some(q)
    {
      assert nodes[q].children[k] in nodes[q].children;
    }
  }

  /** No component lists `id` as a child. */
  ghost predicate Unlisted(nodes: map<int, Node>, id: int)
  {
    forall q | q in nodes :: id !in nodes[q].children
  }

  /** A listed child points back to the component that lists it. */
  lemma {:induction false} ChildBack(nodes: map<int, Node>, p: int, x: int)
    requires Linked(nodes) && p in nodes && x in nodes[p].children
    ensures x in nodes && nodes[x].parent == Some(p)
  {
    var m :| 0 <= m < |nodes[p].children| && nodes[p].children[m] == x;
  }

  /** A component without a parent is listed by no component. */
  lemma {:induction false} OrphanUnlisted(nodes: map<int, Node>, r: int)
    requires Linked(nodes) && r in nodes && nodes[r].parent.None?
    ensures Unlisted(nodes, r)
  {
    forall q, k | q in nodes && 0 <= k < |nodes[q].children|
      ensures nodes[q].children[k] != r
    {
      assert nodes[nodes[q].children[k]].parent == Some(q);
    }
  }

  /** The component and all components up its parent chain. */
  ghost function AncestorsOrSelf(nodes: map<int, Node>, rank: map<int, nat>, id: int): set<int>
    requires WellFormed(nodes, rank) && id in nodes
    decreases rank[id]
  {
    match nodes[id].parent
    case None => {id}
    case Some(p) => {id} + AncestorsOrSelf(nodes, rank, p)
  }

  /** Ancestors have at most the rank of their descendants. */
  lemma {:induction false} AncestorRank(nodes: map<int, Node>, rank: map<int, nat>, id: int, a: int)
    requires WellFormed(nodes, rank) && id in nodes && a in AncestorsOrSelf(nodes, rank, id)
    ensures a in nodes && rank[a] <= rank[id]
    decreases rank[id]
  {
    if a != id {
      AncestorRank(nodes, rank, nodes[id].parent.value, a);
    }
  }

  predicate IsRoot(nodes: map<int, Node>, id: int)
    requires id in nodes
  {
    nodes[id].parent.None?
  }

  /** `AbsX`: the column of the component on the screen. */
  function AbsX(nodes: map<int, Node>, ghost rank: map<int, nat>, id: int): int
    requires WellFormed(nodes, rank) && id in nodes
    decreases rank[id]
  {
    match nodes[id].parent
    case None => nodes[id].x
    case Some(p) => nodes[id].x + AbsX(nodes, rank, p)
  }

  /** `AbsY`: the row of the component on the screen. */
  function AbsY(nodes: map<int, Node>, ghost rank: map<int, nat>, id: int): int
    requires WellFormed(nodes, rank) && id in nodes
    decreases rank[id]
  {
    match nodes[id].parent
    case None => nodes[id].y
    case Some(p) => nodes[id].y + AbsY(nodes, rank, p)
  }

  /** Moving component `a` by `dx` columns moves exactly the components it is
      an ancestor-or-self of, each by `dx`: absolute positions are the sums
      of the offsets up the parent chain. */
  lemma {:induction false} AbsXShift(nodes: map<int, Node>, rank: map<int, nat>, a: int, dx: int, id: int)
    requires WellFormed(nodes, rank) && a in nodes && id in nodes
    ensures WellFormed(nodes[a := nodes[a].(x := nodes[a].x + dx)], rank)
    ensures AbsX(nodes[a := nodes[a].(x := nodes[a].x + dx)], rank, id)
            == AbsX(nodes, rank, id) + (if a in AncestorsOrSelf(nodes, rank, id) then dx else 0)
    decreases rank[id]
  {
    var moved := nodes[a := nodes[a].(x := nodes[a].x + dx)];
    LinksKept(nodes, moved, rank);
    assert moved[id].parent == nodes[id].parent;
    match nodes[id].parent
    case None =>
    case Some(p) =>
      AbsXShift(nodes, rank, a, dx, p);
      if a == id && a in AncestorsOrSelf(nodes, rank, p) {
        AncestorRank(nodes, rank, p, a);
      }
  }

  /** The same for rows. */
  lemma {:induction false} AbsYShift(nodes: map<int, Node>, rank: map<int, nat>, a: int, dy: int, id: int)
    requires WellFormed(nodes, rank) && a in nodes && id in nodes
    ensures WellFormed(nodes[a := nodes[a].(y := nodes[a].y + dy)], rank)
    ensures AbsY(nodes[a := nodes[a].(y := nodes[a].y + dy)], rank, id)
            == AbsY(nodes, rank, id) + (if a in AncestorsOrSelf(nodes, rank, id) then dy else 0)
    decreases rank[id]
  {
    var moved := nodes[a := nodes[a].(y := nodes[a].y + dy)];
    LinksKept(nodes, moved, rank);
    assert moved[id].parent == nodes[id].parent;
    match nodes[id].parent
    case None =>
    case Some(p) =>
      AbsYShift(nodes, rank, a, dy, p);
      if a == id && a in AncestorsOrSelf(nodes, rank, p) {
        AncestorRank(nodes, rank, p, a);
      }
  }

  ghost predicate Ascending(s: seq<int>)
  {
    forall j, k :: 0 <= j < k < |s| ==> s[j] <= s[k]
  }

  /** `GetSiblings`: no siblings for a root; otherwise a sorted copy of the
      parent's children, the component itself among them while it is
      listed. */
  function GetSiblings(nodes: map<int, Node>, id: int): (siblings: seq<int>)
    requires id in nodes
    requires nodes[id].parent.Some? ==> nodes[id].parent.value in nodes
    ensures nodes[id].parent.None? ==> siblings == []
    ensures nodes[id].parent.Some? ==>
              && multiset(siblings) == multiset(nodes[nodes[id].parent.value].children)
              && Ascending(siblings)
    ensures nodes[id].parent.Some? ==> forall x :: x in siblings <==> x in nodes[nodes[id].parent.value].children
  {
    match nodes[id].parent
    case None => []
    case Some(p) =>
      var r := SortBy(nodes[p].children, _ => 0);
      SameMembers(r, nodes[p].children);
      r
  }

  /** The children lists of the components `s`, one after the other. */
  function ChildrenOf(nodes: map<int, Node>, s: seq<int>): seq<int>
    requires forall k :: 0 <= k < |s| ==> s[k] in nodes
  {
    if s == [] then [] else ChildrenOf(nodes, s[..|s| - 1]) + nodes[s[|s| - 1]].children
  }

  /** An element of `ChildrenOf(s)` is listed by some component of `s`, and
      every child of a component of `s` is an element. */
  lemma {:induction false} ChildrenOfMembers(nodes: map<int, Node>, s: seq<int>, x: int)
    requires forall k :: 0 <= k < |s| ==> s[k] in nodes
    ensures x in ChildrenOf(nodes, s) <==> exists j :: 0 <= j < |s| && x in nodes[s[j]].children
  {
    if s != [] {
      var n := |s|;
      ChildrenOfMembers(nodes, s[..n - 1], x);
      if x in ChildrenOf(nodes, s[..n - 1]) {
        var j :| 0 <= j < n - 1 && x in nodes[s[..n - 1][j]].children;
        assert x in nodes[s[j]].children;
      }
      if exists j :: 0 <= j < n && x in nodes[s[j]].children {
        var j :| 0 <= j < n && x in nodes[s[j]].children;
        if j < n - 1 {
          assert x in nodes[s[..n - 1][j]].children;
        }
      }
    }
  }

  /** `order` is the breadth-first traversal from `c`: it starts with `c`,
      has no repetitions, and after `c` holds the children of its own
      elements, list by list, in its own order. */
  ghost predicate IsTraversal(nodes: map<int, Node>, c: int, order: seq<int>)
  {
    && (forall k :: 0 <= k < |order| ==> order[k] in nodes)
    && |order| >= 1 && order[0] == c
    && order == [c] + ChildrenOf(nodes, order)
    && Distinct(order)
  }

  /** Every element after the first is a child of an earlier element. */
  ghost predicate ParentsFirst(nodes: map<int, Node>, order: seq<int>)
    requires forall k :: 0 <= k < |order| ==> order[k] in nodes
  {
    forall k :: 1 <= k < |order| ==>
      exists j :: 0 <= j < k && nodes[order[k]].parent == Some(order[j])
  }

  /** A traversal is closed under children: whatever a visited component
      lists is visited too. */
  lemma {:induction false} TraversalClosed(nodes: map<int, Node>, c: int, order: seq<int>, k: int, ch: int)
    requires IsTraversal(nodes, c, order) && 0 <= k < |order| && ch in nodes[order[k]].children
    ensures ch in order
  {
    ChildrenOfMembers(nodes, order, ch);
    assert ch in ChildrenOf(nodes, order);
  }

  lemma {:induction false} DistinctAppend<T>(s: seq<T>, t: seq<T>)
    requires Distinct(s) && Distinct(t)
    requires forall x :: x in t ==> x !in s
    ensures Distinct(s + t)
  {
    forall j, k | 0 <= j < k < |s + t|
      ensures (s + t)[j] != (s + t)[k]
    {
      if k >= |s| && j < |s| {
        assert (s + t)[k] in t;
      }
    }
  }

  /** `nodes[p]` with `x` removed from its children (the first occurrence). */
  function Without(s: seq<int>, x: int): (r: seq<int>)
    ensures x !in s ==> r == s
    ensures x in s ==> RemovedFirst(s, x, r)
  {
    if s == [] then []
    else if s[0] == x then s[1..]
    else
      var rest := Without(s[1..], x);
      WithoutCons(s, x, rest);
      [s[0]] + rest
  }

  /** `RemovedFirst(s, x, r)`: `r` is `s` without its first `x`. */
  ghost predicate RemovedFirst(s: seq<int>, x: int, r: seq<int>)
  {
    exists k :: 0 <= k < |s| && s[k] == x && x !in s[..k] && r == s[..k] + s[k + 1..]
  }

  lemma {:induction false} WithoutCons(s: seq<int>, x: int, rest: seq<int>)
    requires s != [] && s[0] != x
    requires x !in s[1..] ==> rest == s[1..]
    requires x in s[1..] ==> RemovedFirst(s[1..], x, rest)
    ensures x !in s ==> [s[0]] + rest == s
    ensures x in s ==> RemovedFirst(s, x, [s[0]] + rest)
  {
    if x in s[1..] {
      var k :| 0 <= k < |s[1..]| && s[1..][k] == x && x !in s[1..][..k] && rest == s[1..][..k] + s[1..][k + 1..];
      RemovedFirstCons(s, x, rest, k);
    } else {
      assert s == [s[0]] + s[1..];
    }
  }

  lemma {:induction false} RemovedFirstCons(s: seq<int>, x: int, rest: seq<int>, k: int)
    requires s != [] && s[0] != x
    requires 0 <= k < |s| - 1 && s[k + 1] == x && x !in s[1..][..k] && rest == s[1..][..k] + s[1..][k + 1..]
    ensures RemovedFirst(s, x, [s[0]] + rest)
  {
    assert s[..k + 1] == [s[0]] + s[1..][..k];
    assert s[k + 2..] == s[1..][k + 1..];
    assert x !in s[..k + 1];
    assert [s[0]] + rest == s[..k + 1] + s[k + 2..];
  }

  /** Removing the first occurrence at a known index. */
  lemma {:induction false} WithoutAt(s: seq<int>, x: int, i: int)
    requires 0 <= i < |s| && s[i] == x && x !in s[..i]
    ensures Without(s, x) == s[..i] + s[i + 1..]
  {
    if i > 0 {
      assert s[1..][..i - 1] == s[1..i];
      assert x !in s[1..][..i - 1];
      WithoutAt(s[1..], x, i - 1);
      assert s[..i] == [s[0]] + s[1..i];
    }
  }

  /** Where the elements of a list with one entry cut out come from. */
  lemma {:induction false} CutIndex(s: seq<int>, k: int, i: int)
    requires 0 <= k < |s| && 0 <= i < |s| - 1
    ensures (s[..k] + s[k + 1..])[i] == if i < k then s[i] else s[i + 1]
  {
  }

  /** Removing an element keeps a repetition-free list repetition-free. */
  lemma {:induction false} WithoutDistinct(s: seq<int>, x: int)
    requires Distinct(s)
    ensures Distinct(Without(s, x))
  {
    if x in s {
      var k :| 0 <= k < |s| && s[k] == x && x !in s[..k] && Without(s, x) == s[..k] + s[k + 1..];
      var r := Without(s, x);
      forall j, m | 0 <= j < m < |r|
        ensures r[j] != r[m]
      {
        CutIndex(s, k, j);
        CutIndex(s, k, m);
      }
    }
  }

  /** Removing an element from a repetition-free list takes away that
      element and nothing else. */
  lemma {:induction false} WithoutMembers(s: seq<int>, x: int, y: int)
    requires Distinct(s)
    ensures y in Without(s, x) <==> y in s && y != x
  {
    if x in s {
      var k :| 0 <= k < |s| && s[k] == x && x !in s[..k] && Without(s, x) == s[..k] + s[k + 1..];
      CutMembers(s, k, y);
    }
  }

  /** What is left of a repetition-free list with entry `k` cut out. */
  lemma {:induction false} CutMembers(s: seq<int>, k: int, y: int)
    requires Distinct(s) && 0 <= k < |s|
    ensures y in s[..k] + s[k + 1..] <==> y in s && y != s[k]
  {
    var r := s[..k] + s[k + 1..];
    if y in s && y != s[k] {
      var i :| 0 <= i < |s| && s[i] == y;
      if i < k {
        CutIndex(s, k, i);
      } else {
        CutIndex(s, k, i - 1);
      }
    }
    if y in r {
      var i :| 0 <= i < |r| && r[i] == y;
      CutIndex(s, k, i);
    }
  }

  /** Attaching `child` to `parent` lifts the ranks of `child` and everything
      below it by `rank[parent] + 1`, so ranks still grow from parent to
      child. */
  ghost function Lifted(nodes: map<int, Node>, rank: map<int, nat>, parent: int, child: int): map<int, nat>
    requires WellFormed(nodes, rank) && parent in nodes
  {
    map x | x in rank :: rank[x] + (if x in nodes && child in AncestorsOrSelf(nodes, rank, x) then rank[parent] + 1 else 0)
  }

  /** The components after `AddChild(parent, child)`. */
  function Attached(nodes: map<int, Node>, parent: int, child: int): map<int, Node>
    requires parent in nodes && child in nodes
  {
    nodes[child := nodes[child].(zIndex := nodes[parent].zIndex + 1, parent := Some(parent))]
         [parent := nodes[parent].(children := nodes[parent].children + [child])]
  }

  /** Attaching an unlisted component under one that is not below it keeps
      the store a forest. */
  lemma {:induction false} AttachWellFormed(nodes: map<int, Node>, rank: map<int, nat>, parent: int, child: int)
    requires WellFormed(nodes, rank) && parent in nodes && child in nodes
    requires child !in AncestorsOrSelf(nodes, rank, parent)
    requires Unlisted(nodes, child)
    ensures WellFormed(Attached(nodes, parent, child), Lifted(nodes, rank, parent, child))
  {
    AttachRanked(nodes, rank, parent, child);
    AttachLinked(nodes, rank, parent, child);
  }

  lemma {:induction false} AttachRanked(nodes: map<int, Node>, rank: map<int, nat>, parent: int, child: int)
    requires WellFormed(nodes, rank) && parent in nodes && child in nodes
    requires child !in AncestorsOrSelf(nodes, rank, parent)
    ensures Ranked(Attached(nodes, parent, child), Lifted(nodes, rank, parent, child))
  {
    var nodes', rank' := Attached(nodes, parent, child), Lifted(nodes, rank, parent, child);
    forall id | id in nodes' && nodes'[id].parent.Some?
      ensures nodes'[id].parent.value in nodes' && rank'[nodes'[id].parent.value] < rank'[id]
    {
      if id == child {
        assert child in AncestorsOrSelf(nodes, rank, child);
        assert rank'[parent] == rank[parent];
      } else {
        var p := nodes[id].parent.value;
        assert nodes'[id].parent == Some(p);
        assert AncestorsOrSelf(nodes, rank, id) == {id} + AncestorsOrSelf(nodes, rank, p);
      }
    }
  }

  lemma {:induction false} AttachLinked(nodes: map<int, Node>, rank: map<int, nat>, parent: int, child: int)
    requires WellFormed(nodes, rank) && parent in nodes && child in nodes
    requires child !in AncestorsOrSelf(nodes, rank, parent)
    requires Unlisted(nodes, child)
    ensures Linked(Attached(nodes, parent, child))
  {
    var nodes' := Attached(nodes, parent, child);
    assert parent in AncestorsOrSelf(nodes, rank, parent);
    forall id | id in nodes'
      ensures Distinct(nodes'[id].children)
    {
      if id == parent {
        DistinctAppend(nodes[parent].children, [child]);
      }
    }
    forall id, k | id in nodes' && 0 <= k < |nodes'[id].children|
      ensures nodes'[id].children[k] in nodes' && nodes'[nodes'[id].children[k]].parent == Some(id)
    {
      if id == parent && k == |nodes[parent].children| {
        assert nodes'[id].children[k] == child;
      } else {
        var x := nodes[id].children[k];
        assert nodes'[id].children[k] == x;
        assert x != child;
      }
    }
  }

  /** The state of `Traverse` after visiting `order[..i]`: the work list
      holds `c` and the children of the visited components; it has no
      repetitions, nothing in it has a smaller rank than `c`, and every
      element after `c` is a child of a visited component before it. */
  ghost predicate Traversing(nodes: map<int, Node>, rank: map<int, nat>, c: int, order: seq<int>, i: int)
  {
    && WellFormed(nodes, rank) && c in nodes
    && 0 <= i <= |order|
    && (forall k :: 0 <= k < |order| ==> order[k] in nodes)
    && order == [c] + ChildrenOf(nodes, order[..i])
    && Distinct(order)
    && (forall k :: 0 <= k < |order| ==> rank[order[k]] >= rank[c])
    && (forall k :: 1 <= k < |order| ==>
          exists j :: 0 <= j < i && j < k && nodes[order[k]].parent == Some(order[j]))
  }

  /** A work list whose every entry has been visited is a traversal. */
  lemma {:induction false} TraversalDone(nodes: map<int, Node>, rank: map<int, nat>, c: int, order: seq<int>)
    requires Traversing(nodes, rank, c, order, |order|)
    ensures IsTraversal(nodes, c, order)
    ensures ParentsFirst(nodes, order)
  {
    assert order[..|order|] == order;
  }

  /** Visiting the next component appends children not yet listed. */
  lemma {:induction false} TraverseStep(nodes: map<int, Node>, rank: map<int, nat>, c: int, order: seq<int>, i: int)
    requires Traversing(nodes, rank, c, order, i) && i < |order|
    ensures Traversing(nodes, rank, c, order + nodes[order[i]].children, i + 1)
  {
    var e := order[i];
    var children := nodes[e].children;
    var next := order + children;
    forall x | x in children
      ensures x !in order
    {
      ChildNotListed(nodes, rank, c, order, i, x);
    }
    DistinctAppend(order, children);
    StepWorkList(nodes, c, order, i);
    StepRanks(nodes, rank, c, order, i);
    StepParents(nodes, rank, c, order, i);
  }

  lemma {:induction false} StepWorkList(nodes: map<int, Node>, c: int, order: seq<int>, i: int)
    requires 0 <= i < |order| && forall k :: 0 <= k < |order| ==> order[k] in nodes
    requires order == [c] + ChildrenOf(nodes, order[..i])
    ensures var next := order + nodes[order[i]].children;
      next == [c] + ChildrenOf(nodes, next[..i + 1])
  {
    var next := order + nodes[order[i]].children;
    assert next[..i + 1] == order[..i] + [order[i]];
    assert (order[..i] + [order[i]])[..i] == order[..i];
  }

  lemma {:induction false} StepRanks(nodes: map<int, Node>, rank: map<int, nat>, c: int, order: seq<int>, i: int)
    requires Traversing(nodes, rank, c, order, i) && i < |order|
    ensures var next := order + nodes[order[i]].children;
      forall k :: 0 <= k < |next| ==> next[k] in nodes && rank[next[k]] >= rank[c]
  {
    var e := order[i];
    var next := order + nodes[e].children;
    forall k | 0 <= k < |next|
      ensures next[k] in nodes && rank[next[k]] >= rank[c]
    {
      if k >= |order| {
        var x := nodes[e].children[k - |order|];
        assert next[k] == x && x in nodes && nodes[x].parent == Some(e);
      }
    }
  }

  lemma {:induction false} StepParents(nodes: map<int, Node>, rank: map<int, nat>, c: int, order: seq<int>, i: int)
    requires Traversing(nodes, rank, c, order, i) && i < |order|
    ensures var next := order + nodes[order[i]].children;
      forall k :: 1 <= k < |next| ==>
        next[k] in nodes && exists j :: 0 <= j < i + 1 && j < k && nodes[next[k]].parent == Some(next[j])
  {
    StepRanks(nodes, rank, c, order, i);
    var e := order[i];
    var next := order + nodes[e].children;
    forall k | 1 <= k < |next|
      ensures next[k] in nodes && exists j :: 0 <= j < i + 1 && j < k && nodes[next[k]].parent == Some(next[j])
    {
      if k >= |order| {
        var x := nodes[e].children[k - |order|];
        assert next[k] == x && nodes[x].parent == Some(next[i]);
      } else {
        var j :| 0 <= j < i && j < k && nodes[order[k]].parent == Some(order[j]);
        assert next[j] == order[j] && next[k] == order[k];
      }
    }
  }

  /** A child of the next component to visit is not in the work list yet:
      it is not `c`, whose rank is smaller, and not a child of an earlier
      visited component, since it has only one parent. */
  lemma {:induction false} ChildNotListed(nodes: map<int, Node>, rank: map<int, nat>, c: int, order: seq<int>, i: int, x: int)
    requires Traversing(nodes, rank, c, order, i) && i < |order| && x in nodes[order[i]].children
    ensures x !in order
  {
    var e := order[i];
    var k :| 0 <= k < |nodes[e].children| && nodes[e].children[k] == x;
    assert nodes[x].parent == Some(e) && rank[x] > rank[e] >= rank[c];
    forall m | 0 <= m < |order|
      ensures order[m] != x
    {
      if m > 0 {
        var j :| 0 <= j < i && j < m && nodes[order[m]].parent == Some(order[j]);
        assert order[j] != e;
      }
    }
  }


  class Store {
    var nodes: map<int, Node>
    ghost var rank: map<int, nat>

    ghost predicate Valid()
      reads this
    {
      WellFormed(nodes, rank)
    }

    constructor ()
      ensures Valid() && nodes == map[]
    {
      nodes := map[];
      rank := map[];
    }

    /** Registers a new, unattached component. */
    method Insert(node: Node)
      requires Valid() && node.id !in nodes && node.parent.None? && node.children == []
      modifies this
      ensures Valid() && nodes == old(nodes)[node.id := node]
    {
      nodes := nodes[node.id := node];
      rank := rank[node.id := 0];
    }

    /** `AddChild`: the child's z-index becomes one more than the parent's,
        its parent becomes `parent`, and it is appended to the parent's
        children, the earlier children left as they were. */
    method AddChild(parent: int, child: int)
      requires Valid() && parent in nodes && child in nodes
      requires child !in AncestorsOrSelf(nodes, rank, parent)
      requires Unlisted(nodes, child)
      modifies this
      ensures Valid()
      ensures nodes == Attached(old(nodes), parent, child)
      ensures nodes[parent].children[..|old(nodes)[parent].children|] == old(nodes)[parent].children
      ensures nodes[parent].children[|nodes[parent].children| - 1] == child
    {
      AttachWellFormed(nodes, rank, parent, child);
      rank := Lifted(nodes, rank, parent, child);
      var p, c := nodes[parent], nodes[child];
      c := c.(zIndex := p.zIndex + 1);
      c := c.(parent := Some(parent));
      nodes := nodes[child := c][parent := p.(children := p.children + [child])];
    }

    /** `RemoveChild`: takes the first child with the given id out of the
        list, keeping the others in order, or reports that there is none and
        changes nothing. */
    method RemoveChild(parent: int, id: int) returns (err: Option<TreeError>)
      requires Valid() && parent in nodes
      modifies this
      ensures Valid() && rank == old(rank)
      ensures nodes == old(nodes)[parent := old(nodes)[parent].(children := Without(old(nodes)[parent].children, id))]
      ensures err == (if id in old(nodes)[parent].children then None else Some(NotFound(id)))
    {
      var children := nodes[parent].children;
      var i := 0;
      while i < |children|
        invariant 0 <= i <= |children| && id !in children[..i]
      {
        if children[i] == id {
          CutChild(parent, i);
          return None;
        }
        assert children[..i + 1] == children[..i] + [children[i]];
        i := i + 1;
      }
      assert children[..i] == children;
      return Some(NotFound(id));
    }

    /** The found case of `RemoveChild`: cuts entry `i`, the first
        occurrence of its id, out of the list. */
    method CutChild(parent: int, i: int)
      requires Valid() && parent in nodes
      requires 0 <= i < |nodes[parent].children| && nodes[parent].children[i] !in nodes[parent].children[..i]
      modifies this
      ensures Valid() && rank == old(rank)
      ensures var children := old(nodes)[parent].children;
        nodes == old(nodes)[parent := old(nodes)[parent].(children := Without(children, children[i]))]
    {
      var children := nodes[parent].children;
      var id := children[i];
      WithoutDistinct(children, id);
      WithoutAt(children, id, i);
      forall y | y in Without(children, id)
        ensures y in children
      {
        WithoutMembers(children, id, y);
      }
      ChildrenReplaced(nodes, rank, parent, Without(children, id));
      nodes := nodes[parent := nodes[parent].(children := children[..i] + children[i + 1..])];
    }

    /** `RemoveChildren`: forgets all children; they keep their parent. */
    method RemoveChildren(id: int)
      requires Valid() && id in nodes
      modifies this
      ensures Valid() && rank == old(rank)
      ensures nodes == old(nodes)[id := old(nodes)[id].(children := [])]
    {
      ChildrenReplaced(nodes, rank, id, []);
      nodes := nodes[id := nodes[id].(children := [])];
    }

    /** `SetParent(nil)` on a component no one lists. */
    method DetachParent(id: int)
      requires Valid() && id in nodes && Unlisted(nodes, id)
      modifies this
      ensures Valid() && rank == old(rank)
      ensures nodes == old(nodes)[id := old(nodes)[id].(parent := None)]
    {
      ParentCleared(nodes, rank, id);
      nodes := nodes[id := nodes[id].(parent := None)];
    }

    /** `SetX`: assigns the offset, reporting whether it changed. */
    method SetX(id: int, x: int) returns (changed: bool)
      requires Valid() && id in nodes
      modifies this
      ensures Valid() && rank == old(rank)
      ensures changed == (old(nodes)[id].x != x)
      ensures nodes == old(nodes)[id := old(nodes)[id].(x := x)]
    {
      if nodes[id].x == x {
        return false;
      }
      LinksKept(nodes, nodes[id := nodes[id].(x := x)], rank);
      nodes := nodes[id := nodes[id].(x := x)];
      return true;
    }

    /** `SetY`: assigns the offset, reporting whether it changed. */
    method SetY(id: int, y: int) returns (changed: bool)
      requires Valid() && id in nodes
      modifies this
      ensures Valid() && rank == old(rank)
      ensures changed == (old(nodes)[id].y != y)
      ensures nodes == old(nodes)[id := old(nodes)[id].(y := y)]
    {
      if nodes[id].y == y {
        return false;
      }
      LinksKept(nodes, nodes[id := nodes[id].(y := y)], rank);
      nodes := nodes[id := nodes[id].(y := y)];
      return true;
    }

    /** `SetWidth`: assigns the width, reporting whether it changed. */
    method SetWidth(id: int, width: int) returns (changed: bool)
      requires Valid() && id in nodes
      modifies this
      ensures Valid() && rank == old(rank)
      ensures changed == (old(nodes)[id].width != width)
      ensures nodes == old(nodes)[id := old(nodes)[id].(width := width)]
    {
      if nodes[id].width == width {
        return false;
      }
      LinksKept(nodes, nodes[id := nodes[id].(width := width)], rank);
      nodes := nodes[id := nodes[id].(width := width)];
      return true;
    }

    /** `SetHeight`: assigns the height, reporting whether it changed. */
    method SetHeight(id: int, height: int) returns (changed: bool)
      requires Valid() && id in nodes
      modifies this
      ensures Valid() && rank == old(rank)
      ensures changed == (old(nodes)[id].height != height)
      ensures nodes == old(nodes)[id := old(nodes)[id].(height := height)]
    {
      if nodes[id].height == height {
        return false;
      }
      LinksKept(nodes, nodes[id := nodes[id].(height := height)], rank);
      nodes := nodes[id := nodes[id].(height := height)];
      return true;
    }

    /** The four setters of `SetGeometry`, each of them run: reports
        whether any of the four values changed. */
    method SetGeometry(id: int, x: int, y: int, width: int, height: int) returns (changed: bool)
      requires Valid() && id in nodes
      modifies this
      ensures Valid() && rank == old(rank)
      ensures nodes == old(nodes)[id := WithGeometry(old(nodes)[id], x, y, width, height)]
      ensures var n := old(nodes)[id];
        changed == (n.x != x || n.y != y || n.width != width || n.height != height)
    {
      ghost var nodes0 := nodes;
      changed := SetX(id, x);
      var step := SetY(id, y);
      UpdateTwice(nodes0, id, nodes0[id].(x := x), nodes0[id].(x := x, y := y));
      changed := step || changed;
      step := SetWidth(id, width);
      UpdateTwice(nodes0, id, nodes0[id].(x := x, y := y), nodes0[id].(x := x, y := y, width := width));
      changed := step || changed;
      step := SetHeight(id, height);
      UpdateTwice(nodes0, id, nodes0[id].(x := x, y := y, width := width), WithGeometry(nodes0[id], x, y, width, height));
      changed := step || changed;
    }

    method SetStyle(id: int, style: Style)
      requires Valid() && id in nodes
      modifies this
      ensures Valid() && rank == old(rank)
      ensures nodes == old(nodes)[id := old(nodes)[id].(style := style)]
    {
      LinksKept(nodes, nodes[id := nodes[id].(style := style)], rank);
      nodes := nodes[id := nodes[id].(style := style)];
    }

    method SetLayout(id: int, layout: Layout)
      requires Valid() && id in nodes
      modifies this
      ensures Valid() && rank == old(rank)
      ensures nodes == old(nodes)[id := old(nodes)[id].(layout := layout)]
    {
      LinksKept(nodes, nodes[id := nodes[id].(layout := layout)], rank);
      nodes := nodes[id := nodes[id].(layout := layout)];
    }

    method SetZIndex(id: int, zIndex: int)
      requires Valid() && id in nodes
      modifies this
      ensures Valid() && rank == old(rank)
      ensures nodes == old(nodes)[id := old(nodes)[id].(zIndex := zIndex)]
    {
      LinksKept(nodes, nodes[id := nodes[id].(zIndex := zIndex)], rank);
      nodes := nodes[id := nodes[id].(zIndex := zIndex)];
    }

    method SetPadding(id: int, padding: int)
      requires Valid() && id in nodes
      modifies this
      ensures Valid() && rank == old(rank)
      ensures nodes == old(nodes)[id := old(nodes)[id].(padding := padding)]
    {
      LinksKept(nodes, nodes[id := nodes[id].(padding := padding)], rank);
      nodes := nodes[id := nodes[id].(padding := padding)];
    }

    method SetMinWidth(id: int, minWidth: int)
      requires Valid() && id in nodes
      modifies this
      ensures Valid() && rank == old(rank)
      ensures nodes == old(nodes)[id := old(nodes)[id].(minWidth := minWidth)]
    {
      LinksKept(nodes, nodes[id := nodes[id].(minWidth := minWidth)], rank);
      nodes := nodes[id := nodes[id].(minWidth := minWidth)];
    }

    method SetMaxWidth(id: int, maxWidth: int)
      requires Valid() && id in nodes
      modifies this
      ensures Valid() && rank == old(rank)
      ensures nodes == old(nodes)[id := old(nodes)[id].(maxWidth := maxWidth)]
    {
      LinksKept(nodes, nodes[id := nodes[id].(maxWidth := maxWidth)], rank);
      nodes := nodes[id := nodes[id].(maxWidth := maxWidth)];
    }

    method SetMinHeight(id: int, minHeight: int)
      requires Valid() && id in nodes
      modifies this
      ensures Valid() && rank == old(rank)
      ensures nodes == old(nodes)[id := old(nodes)[id].(minHeight := minHeight)]
    {
      LinksKept(nodes, nodes[id := nodes[id].(minHeight := minHeight)], rank);
      nodes := nodes[id := nodes[id].(minHeight := minHeight)];
    }

    method SetMaxHeight(id: int, maxHeight: int)
      requires Valid() && id in nodes
      modifies this
      ensures Valid() && rank == old(rank)
      ensures nodes == old(nodes)[id := old(nodes)[id].(maxHeight := maxHeight)]
    {
      LinksKept(nodes, nodes[id := nodes[id].(maxHeight := maxHeight)], rank);
      nodes := nodes[id := nodes[id].(maxHeight := maxHeight)];
    }

    /** `Traverse`: the components reachable from `c` through children
        lists, breadth first, by a work list that appends each visited
        component's children. */
    method Traverse(c: int) returns (order: seq<int>)
      requires Valid() && c in nodes
      ensures IsTraversal(nodes, c, order)
      ensures ParentsFirst(nodes, order)
    {
      order := [c];
      var i := 0;
      while i < |order|
        invariant Traversing(nodes, rank, c, order, i)
        decreases |nodes.Keys| - i
      {
        DistinctBound(order, nodes.Keys);
        TraverseStep(nodes, rank, c, order, i);
        var e := order[i];
        i := i + 1;
        order := order + nodes[e].children;
      }
      TraversalDone(nodes, rank, c, order);
    }
  }
}

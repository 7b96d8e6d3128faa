/** The solver: two best-first searches advanced in lockstep, one from the
    initial board and one from its twin, followed by reconstruction of the
    path to the goal from the search nodes' parent links. */
module Solving {
  import opened Wrappers
  import opened Boards

  // ---------------------------------------------------------------------
  // Search nodes

  /** A search node: the board it reached, the moves taken from the root,
      and the index of its parent node in the track's node list (None for
      the root). */
  datatype SearchNode = SearchNode(previous: Option<nat>, board: Board, moves: nat)

  /** The node's priority: moves so far plus the Manhattan estimate. */
  function Priority(node: SearchNode): (p: int)
    requires IsSquare(node.board.tiles)
    ensures p >= node.moves
    ensures p == node.moves <==> Manhattan(node.board) == 0
  {
    node.moves + Manhattan(node.board)
  }

  /** `NodeComparator.compare`: negative, zero or positive as a's priority
      is below, equal to or above b's; equal priorities tie. */
  function Compare(a: SearchNode, b: SearchNode): (r: int)
    requires IsSquare(a.board.tiles) && IsSquare(b.board.tiles)
    ensures r < 0 <==> Priority(a) < Priority(b)
    ensures r == 0 <==> Priority(a) == Priority(b)
  {
    Priority(a) - Priority(b)
  }

  // ---------------------------------------------------------------------
  // Tracks

  /** One search track: every node created so far (index 0 is the root),
      the priority queue as a sequence of node indices whose order carries
      no meaning, and the stack of covered nodes (last entry on top). */
  datatype Track = Track(nodes: seq<SearchNode>, pq: seq<nat>, covered: seq<nat>)

  function Dim(t: Track): nat
    requires |t.nodes| >= 1
  {
    |t.nodes[0].board.tiles|
  }

  function Top(t: Track): nat
    requires |t.covered| >= 1
  {
    t.covered[|t.covered| - 1]
  }

  /** Node i is a child: its parent comes earlier, it has one more move, and
      its board is one of the parent board's neighbours. */
  predicate IsChild(nodes: seq<SearchNode>, i: nat)
    requires i < |nodes|
  {
    && nodes[i].previous.Some?
    && nodes[i].previous.value < i
    && nodes[i].moves == nodes[nodes[i].previous.value].moves + 1
    && WellFormed(nodes[nodes[i].previous.value].board)
    && nodes[i].board in Neighbors(nodes[nodes[i].previous.value].board)
  }

  /** The node list is a tree rooted at index 0 over well-formed boards of
      one dimension, at least 2. */
  predicate IsTree(nodes: seq<SearchNode>) {
    && |nodes| >= 1
    && |nodes[0].board.tiles| >= 2
    && (forall i :: 0 <= i < |nodes| ==>
          WellFormed(nodes[i].board) && |nodes[i].board.tiles| == |nodes[0].board.tiles|)
    && nodes[0].previous.None? && nodes[0].moves == 0
    && (forall i :: 0 < i < |nodes| ==> IsChild(nodes, i))
  }

  /** Queue entries name existing nodes with square boards, so priorities
      can be compared. */
  predicate Shaped(t: Track) {
    && (forall i :: 0 <= i < |t.nodes| ==> IsSquare(t.nodes[i].board.tiles))
    && (forall k :: 0 <= k < |t.pq| ==> t.pq[k] < |t.nodes|)
  }

  /** The structure every track keeps while it is searched. */
  predicate Good(t: Track) {
    && IsTree(t.nodes)
    && Shaped(t)
    && (forall k :: 0 <= k < |t.covered| ==> t.covered[k] < |t.nodes|)
    // Before the first extraction the queue holds just the root; after it
    // the root is never queued again and sits only at the stack's bottom.
    && (|t.covered| == 0 ==> t.pq == [0])
    && (|t.covered| >= 1 ==> forall k :: 0 <= k < |t.pq| ==> t.pq[k] != 0)
    && (forall k :: 1 <= k < |t.covered| ==> t.covered[k] != 0)
  }

  /** A fresh track: the root node for `board` alone in the queue. */
  function Start(board: Board): (t: Track)
    requires WellFormed(board) && |board.tiles| >= 2
    ensures Good(t) && Dim(t) == |board.tiles|
    ensures |t.pq| == 1 && t.covered == []
    ensures t.nodes[0].board == board && t.nodes[0].moves == 0 && t.nodes[0].previous.None?
  {
    Track([SearchNode(None, board, 0)], [0], [])
  }

  /** The stack's top has a parent whenever two or more nodes are covered,
      so `peek().previous` is never null where `contains` reads it. */
  lemma TopHasParent(t: Track)
    requires Good(t) && |t.covered| >= 2
    ensures t.nodes[Top(t)].previous.Some?
    ensures t.nodes[Top(t)].previous.value < Top(t)
  {
    assert Top(t) != 0;
    assert IsChild(t.nodes, Top(t));
  }

  /** `q` is a position of a minimum-priority entry of the queue: what
      `delMin` may remove when priorities tie. */
  predicate IsMinPos(t: Track, q: nat)
    requires Shaped(t)
  {
    && q < |t.pq|
    && forall k :: 0 <= k < |t.pq| ==> Compare(t.nodes[t.pq[q]], t.nodes[t.pq[k]]) <= 0
  }

  /** The first minimum-priority position at or after `from`, or `best` if
      that one is lower still; the concrete tie-break used by `Run`. */
  function MinFrom(t: Track, from: nat, best: nat): (q: nat)
    requires Shaped(t) && best < |t.pq| && from <= |t.pq|
    requires forall k :: 0 <= k < from ==> Priority(t.nodes[t.pq[best]]) <= Priority(t.nodes[t.pq[k]])
    ensures IsMinPos(t, q)
    decreases |t.pq| - from
  {
    if from == |t.pq| then best
    else if Priority(t.nodes[t.pq[from]]) < Priority(t.nodes[t.pq[best]]) then MinFrom(t, from + 1, from)
    else MinFrom(t, from + 1, best)
  }

  function FirstMin(t: Track): (q: nat)
    requires Shaped(t) && |t.pq| >= 1
    ensures IsMinPos(t, q)
  {
    MinFrom(t, 0, 0)
  }

  /** `delMin` followed by `push`: the entry at position q leaves the queue
      and becomes the top of the covered stack. */
  function Extract(t: Track, q: nat): (r: Track)
    requires Good(t) && q < |t.pq|
    ensures Good(r)
    ensures r.nodes == t.nodes
    ensures r.covered == t.covered + [t.pq[q]]
    ensures Top(r) == t.pq[q]
    ensures multiset(r.pq) + multiset{t.pq[q]} == multiset(t.pq)
    ensures |r.pq| + 1 == |t.pq|
  {
    var r := t.(pq := t.pq[..q] + t.pq[q + 1..], covered := t.covered + [t.pq[q]]);
    assert t.pq == t.pq[..q] + [t.pq[q]] + t.pq[q + 1..];
    assert forall k :: 0 <= k < |r.pq| ==> r.pq[k] in t.pq;
    r
  }

  /** The board two steps back on this track: the parent of the node on top
      of the covered stack, when at least two nodes are covered. */
  function Grandparent(t: Track): (g: Option<Board>)
    requires Good(t)
    ensures g.Some? ==> |t.covered| >= 2
    ensures |t.covered| >= 2 ==>
      var p := t.nodes[Top(t)].previous;
      p.Some? && p.value < |t.nodes| && g == Some(t.nodes[p.value].board)
  {
    if |t.covered| < 2 then None
    else
      TopHasParent(t);
      Some(t.nodes[t.nodes[Top(t)].previous.value].board)
  }

  predicate SameAsGrandparent(t: Track, b: Board)
    requires Good(t)
  {
    Matches(Grandparent(t), b)
  }

  /** `contains(covered, node)`: false while fewer than two nodes are
      covered; otherwise whether the candidate's board equals the board of
      the covered top's parent. */
  function Contains(t: Track, searched: SearchNode): (r: bool)
    requires Good(t) && IsSquare(searched.board.tiles)
    ensures r <==> SameAsGrandparent(t, searched.board)
  {
    if |t.covered| < 2 then false
    else
      TopHasParent(t);
      Equals(searched.board, t.nodes[t.nodes[Top(t)].previous.value].board)
  }

  /** The expansion loop over the covered top's neighbours: each becomes a
      node pointing at `parent` with `moves` moves, and it is queued unless
      `contains` holds. The covered stack does not change during the loop,
      so neither does what `contains` compares against: by the contract of
      `Contains`, it holds exactly when the grandparent board g exists and
      `equals` the candidate's board. Only queued children are added to the
      node list, each at the next free index. */
  function EnqueueAll(g: Option<Board>, parent: nat, moves: nat,
                      nodes: seq<SearchNode>, pq: seq<nat>, nbrs: seq<Board>): (r: (seq<SearchNode>, seq<nat>))
    requires g.Some? ==> IsSquare(g.value.tiles)
    requires forall k :: 0 <= k < |nbrs| ==> IsSquare(nbrs[k].tiles)
    ensures r.0 == nodes + FreshChildren(g, parent, moves, nbrs)
    ensures r.1 == pq + Indices(|nodes|, CountFresh(g, nbrs))
    decreases |nbrs|
  {
    if |nbrs| == 0 then (nodes, pq)
    else
      var node := SearchNode(Some(parent), nbrs[0], moves);
      var rest := nbrs[1..];
      assert forall k :: 0 <= k < |rest| ==> rest[k] == nbrs[k + 1];
      FreshChildrenCons(g, parent, moves, nbrs);
      if g.Some? && Equals(node.board, g.value) then
        EnqueueAll(g, parent, moves, nodes, pq, rest)
      else
        var r := EnqueueAll(g, parent, moves, nodes + [node], pq + [|nodes|], rest);
        IndicesCons(|nodes|, CountFresh(g, nbrs));
        AppendRegroup(nodes, [node], nodes + [node], FreshChildren(g, parent, moves, rest), r.0);
        AppendRegroup(pq, [|nodes|], pq + [|nodes|], Indices(|nodes| + 1, CountFresh(g, rest)), r.1);
        r
  }

  /** One expansion of track t over the boards `nbrs`: the fresh children
      of the covered top are appended to the node list in neighbour order
      and exactly their indices to the queue; the track keeps its structure,
      its covered stack and therefore its grandparent. */
  function Expand(t: Track, nbrs: seq<Board>): (r: Track)
    requires Good(t) && |t.covered| >= 1
    requires forall k :: 0 <= k < |nbrs| ==> nbrs[k] in Neighbors(t.nodes[Top(t)].board)
    ensures Good(r) && Dim(r) == Dim(t)
    ensures r.covered == t.covered
    ensures r.nodes[0] == t.nodes[0]
    ensures Grandparent(r) == Grandparent(t)
    ensures r.nodes == t.nodes + FreshChildren(Grandparent(t), Top(t), t.nodes[Top(t)].moves + 1, nbrs)
    ensures r.pq == t.pq + Indices(|t.nodes|, CountFresh(Grandparent(t), nbrs))
  {
    NeighborsAllSquare(t.nodes[Top(t)].board, nbrs);
    assert Grandparent(t).Some? ==> WellFormed(Grandparent(t).value);
    var grown := EnqueueAll(Grandparent(t), Top(t), t.nodes[Top(t)].moves + 1, t.nodes, t.pq, nbrs);
    ChildrenKeepTrack(t, nbrs);
    t.(nodes := grown.0, pq := grown.1)
  }

  /** Boards listed among b's neighbours are square grids. */
  lemma NeighborsAllSquare(b: Board, nbrs: seq<Board>)
    requires WellFormed(b)
    requires forall k :: 0 <= k < |nbrs| ==> nbrs[k] in Neighbors(b)
    ensures forall k :: 0 <= k < |nbrs| ==> IsSquare(nbrs[k].tiles)
  {
    forall k | 0 <= k < |nbrs|
      ensures IsSquare(nbrs[k].tiles)
    {
      NeighborsSquare(b, nbrs[k]);
    }
  }

  /** Appending the fresh children of the covered top, with their indices
      queued, keeps the track's structure and its grandparent. */
  lemma {:induction false} ChildrenKeepTrack(t: Track, nbrs: seq<Board>)
    requires Good(t) && |t.covered| >= 1
    requires forall k :: 0 <= k < |nbrs| ==> nbrs[k] in Neighbors(t.nodes[Top(t)].board)
    ensures
      var grown := t.(nodes := t.nodes + FreshChildren(Grandparent(t), Top(t), t.nodes[Top(t)].moves + 1, nbrs),
                      pq := t.pq + Indices(|t.nodes|, CountFresh(Grandparent(t), nbrs)));
      Good(grown) && Grandparent(grown) == Grandparent(t)
  {
    var kids := FreshChildren(Grandparent(t), Top(t), t.nodes[Top(t)].moves + 1, nbrs);
    var added := Indices(|t.nodes|, CountFresh(Grandparent(t), nbrs));
    var nodes := t.nodes + kids;
    var pq := t.pq + added;
    FreshChildrenSound(Grandparent(t), Top(t), t.nodes[Top(t)].moves + 1, nbrs);
    BoardsAmong(kids, nbrs, Neighbors(t.nodes[Top(t)].board));
    KidsKeepTree(t.nodes, Top(t), kids);
    AppendParts(t.nodes, kids, nodes);
    QueueGrows(t.pq, |t.nodes|, CountFresh(Grandparent(t), nbrs));
    AppendKeepsGrandparent(t, nodes, pq);
  }

  /** Appending children of node `top` (each pointing at it, with one more
      move and a neighbouring board) keeps a node list a tree. */
  lemma KidsKeepTree(nodes: seq<SearchNode>, top: nat, kids: seq<SearchNode>)
    requires IsTree(nodes) && top < |nodes|
    requires forall j :: 0 <= j < |kids| ==>
      && kids[j].previous == Some(top) && kids[j].moves == nodes[top].moves + 1
      && kids[j].board in Neighbors(nodes[top].board)
    ensures IsTree(nodes + kids)
  {
    var r := nodes + kids;
    AppendParts(nodes, kids, r);
    forall i | |nodes| <= i < |r|
      ensures IsChild(r, i) && WellFormed(r[i].board) && |r[i].board.tiles| == |r[0].board.tiles|
    {
      NeighborsWellFormed(nodes[top].board, kids[i - |nodes|].board);
    }
    forall i | 0 < i < |nodes|
      ensures IsChild(r, i)
    {
      assert IsChild(nodes, i);
    }
  }

  /** Boards drawn from `nbrs`, all of whose boards lie in `s`, lie in `s`. */
  lemma BoardsAmong(kids: seq<SearchNode>, nbrs: seq<Board>, s: seq<Board>)
    requires forall k :: 0 <= k < |nbrs| ==> nbrs[k] in s
    requires forall j :: 0 <= j < |kids| ==> kids[j].board in nbrs
    ensures forall j :: 0 <= j < |kids| ==> kids[j].board in s
  {
    forall j | 0 <= j < |kids|
      ensures kids[j].board in s
    {
      var k :| 0 <= k < |nbrs| && nbrs[k] == kids[j].board;
    }
  }

  /** Queueing the indices of k nodes appended past the old end n keeps
      every entry a node index other than the root's. */
  lemma QueueGrows(pq: seq<nat>, n: nat, k: nat)
    requires n >= 1
    requires forall q :: 0 <= q < |pq| ==> pq[q] < n && pq[q] != 0
    ensures forall q :: 0 <= q < |pq + Indices(n, k)| ==>
      (pq + Indices(n, k))[q] < n + k && (pq + Indices(n, k))[q] != 0
  {
  }

  /** The cells of a concatenation. */
  lemma AppendParts<T>(a: seq<T>, b: seq<T>, ab: seq<T>)
    requires ab == a + b
    ensures |ab| == |a| + |b|
    ensures forall i :: 0 <= i < |a| ==> ab[i] == a[i]
    ensures forall i :: |a| <= i < |ab| ==> ab[i] == b[i - |a|]
  {
  }

  /** Regrouping a three-part concatenation. */
  lemma AppendRegroup<T>(a: seq<T>, x: seq<T>, ax: seq<T>, f: seq<T>, r: seq<T>)
    requires ax == a + x && r == ax + f
    ensures r == a + (x + f)
  {
  }

  /** The queue entries `from`, `from + 1`, ..., `from + k - 1`. */
  function Indices(from: nat, k: nat): seq<nat> {
    seq(k, i requires 0 <= i < k => from + i)
  }

  /** A non-empty index range is its first index followed by the rest. */
  lemma IndicesCons(from: nat, k: nat)
    requires k >= 1
    ensures Indices(from, k) == [from] + Indices(from + 1, k - 1)
  {
    assert forall i :: 0 <= i < k ==> ([from] + Indices(from + 1, k - 1))[i] == Indices(from, k)[i];
  }

  /** The children that the expansion loop queues, in neighbour order: one
      node per board of `nbrs` whose grid differs from the grandparent g,
      each pointing at `parent` with `moves` moves. */
  function FreshChildren(g: Option<Board>, parent: nat, moves: nat, nbrs: seq<Board>): (c: seq<SearchNode>)
    ensures |c| == CountFresh(g, nbrs)
    decreases |nbrs|
  {
    if |nbrs| == 0 then []
    else
      (if Matches(g, nbrs[0]) then [] else [SearchNode(Some(parent), nbrs[0], moves)])
      + FreshChildren(g, parent, moves, nbrs[1..])
  }

  /** No stale neighbour gets in: every fresh child is a node for a board of
      `nbrs` that differs from the grandparent, pointing at `parent` with
      `moves` moves. */
  lemma {:induction false} FreshChildrenSound(g: Option<Board>, parent: nat, moves: nat, nbrs: seq<Board>)
    ensures forall j :: 0 <= j < |FreshChildren(g, parent, moves, nbrs)| ==>
      && FreshChildren(g, parent, moves, nbrs)[j].previous == Some(parent)
      && FreshChildren(g, parent, moves, nbrs)[j].moves == moves
      && FreshChildren(g, parent, moves, nbrs)[j].board in nbrs
      && !Matches(g, FreshChildren(g, parent, moves, nbrs)[j].board)
    decreases |nbrs|
  {
    if |nbrs| > 0 {
      var rest := nbrs[1..];
      FreshChildrenSound(g, parent, moves, rest);
      FreshChildrenCons(g, parent, moves, nbrs);
      var c := FreshChildren(g, parent, moves, nbrs);
      var f := FreshChildren(g, parent, moves, rest);
      forall j | 0 <= j < |c|
        ensures c[j].previous == Some(parent) && c[j].moves == moves
        ensures c[j].board in nbrs && !Matches(g, c[j].board)
      {
        var i := if Matches(g, nbrs[0]) then j else j - 1;
        if i >= 0 {
          assert c[j] == f[i];
          var k :| 0 <= k < |rest| && rest[k] == f[i].board;
          assert nbrs[k + 1] == rest[k];
        }
      }
    }
  }

  /** One step of the filter: the first board contributes a child exactly
      when it differs from the grandparent. */
  lemma FreshChildrenCons(g: Option<Board>, parent: nat, moves: nat, nbrs: seq<Board>)
    requires |nbrs| >= 1
    ensures Matches(g, nbrs[0]) ==>
      FreshChildren(g, parent, moves, nbrs) == FreshChildren(g, parent, moves, nbrs[1..])
    ensures !Matches(g, nbrs[0]) ==>
      FreshChildren(g, parent, moves, nbrs) ==
        [SearchNode(Some(parent), nbrs[0], moves)] + FreshChildren(g, parent, moves, nbrs[1..])
    ensures CountFresh(g, nbrs) == (if Matches(g, nbrs[0]) then 0 else 1) + CountFresh(g, nbrs[1..])
  {
    assert [] + FreshChildren(g, parent, moves, nbrs[1..]) == FreshChildren(g, parent, moves, nbrs[1..]);
  }

  /** No fresh neighbour is dropped: every board of `nbrs` that differs from
      the grandparent has a child among the fresh children. */
  lemma {:induction false} FreshChildrenComplete(g: Option<Board>, parent: nat, moves: nat, nbrs: seq<Board>, nb: Board)
    requires nb in nbrs && !Matches(g, nb)
    ensures SearchNode(Some(parent), nb, moves) in FreshChildren(g, parent, moves, nbrs)
    decreases |nbrs|
  {
    if nbrs[0] != nb {
      assert nb in nbrs[1..];
      FreshChildrenComplete(g, parent, moves, nbrs[1..], nb);
    }
  }

  /** Growing the node list past its old end, with the covered stack kept,
      leaves the grandparent alone. */
  lemma AppendKeepsGrandparent(t: Track, nodes: seq<SearchNode>, pq: seq<nat>)
    requires Good(t) && Good(t.(nodes := nodes, pq := pq))
    requires |nodes| >= |t.nodes|
    requires forall i :: 0 <= i < |t.nodes| ==> nodes[i] == t.nodes[i]
    ensures Grandparent(t.(nodes := nodes, pq := pq)) == Grandparent(t)
  {
    if |t.covered| >= 2 {
      TopHasParent(t);
      var p := t.nodes[Top(t)].previous.value;
      assert nodes[Top(t)] == t.nodes[Top(t)];
      assert nodes[p] == t.nodes[p];
    }
  }


  /** Whether board b has the grid of the (optional) grandparent board g. */
  predicate Matches(g: Option<Board>, b: Board) {
    g.Some? && g.value.tiles == b.tiles
  }

  /** The number of boards in `nbrs` that differ from the grandparent g. */
  function CountFresh(g: Option<Board>, nbrs: seq<Board>): (c: nat)
    ensures c <= |nbrs|
  {
    if |nbrs| == 0 then 0
    else (if Matches(g, nbrs[0]) then 0 else 1) + CountFresh(g, nbrs[1..])
  }

  /** When no board matches the grandparent, every board is fresh. */
  lemma {:induction false} AllFresh(g: Option<Board>, nbrs: seq<Board>)
    requires forall k :: 0 <= k < |nbrs| ==> !Matches(g, nbrs[k])
    ensures CountFresh(g, nbrs) == |nbrs|
    decreases |nbrs|
  {
    if |nbrs| > 0 {
      assert !Matches(g, nbrs[0]);
      AllFresh(g, nbrs[1..]);
    }
  }

  /** Among boards with pairwise different grids at most one matches the
      grandparent, so all but at most one are fresh. */
  lemma {:induction false} DistinctMostlyFresh(g: Option<Board>, nbrs: seq<Board>)
    requires forall k, l :: 0 <= k < l < |nbrs| ==> nbrs[k].tiles != nbrs[l].tiles
    ensures CountFresh(g, nbrs) + 1 >= |nbrs|
    decreases |nbrs|
  {
    if |nbrs| > 0 {
      var rest := nbrs[1..];
      if Matches(g, nbrs[0]) {
        assert forall k :: 0 <= k < |rest| ==> rest[k].tiles != nbrs[0].tiles by {
          forall k | 0 <= k < |rest|
            ensures rest[k].tiles != nbrs[0].tiles
          {
            assert rest[k] == nbrs[k + 1];
          }
        }
        AllFresh(g, rest);
      } else {
        forall k, l | 0 <= k < l < |rest|
          ensures rest[k].tiles != rest[l].tiles
        {
          assert rest[k] == nbrs[k + 1] && rest[l] == nbrs[l + 1];
        }
        DistinctMostlyFresh(g, rest);
      }
    }
  }

  /** The expansion of one iteration: every neighbour of the covered top's
      board, in `neighbors()` order. The queue never runs dry: there are at
      least two neighbours, pairwise distinct, and at most one of them can
      equal the grandparent. */
  function ExpandTop(t: Track): (r: Track)
    requires Good(t) && |t.covered| >= 1
    ensures Good(r) && Dim(r) == Dim(t)
    ensures r.covered == t.covered
    ensures r.nodes[0] == t.nodes[0]
    ensures Expanded(t, r)
    ensures |r.pq| >= 1
  {
    var b := t.nodes[Top(t)].board;
    NeighborsMostlyFresh(Grandparent(t), b);
    Expand(t, Neighbors(b))
  }

  /** At least one neighbour of a well-formed board of size two or more
      is queued, whatever the grandparent. */
  lemma NeighborsMostlyFresh(g: Option<Board>, b: Board)
    requires WellFormed(b) && |b.tiles| >= 2
    ensures CountFresh(g, Neighbors(b)) >= 1
  {
    NeighborsDistinct(b);
    DistinctMostlyFresh(g, Neighbors(b));
  }

  /** Track `after` is track `before` with the covered top expanded: the
      stack is unchanged, the fresh children of the top's neighbours are
      appended to the node list in neighbour order, and exactly their
      indices are appended to the queue. */
  predicate Expanded(before: Track, after: Track)
    requires Good(before) && |before.covered| >= 1
  {
    var top := Top(before);
    var kids := FreshChildren(Grandparent(before), top, before.nodes[top].moves + 1,
                               Neighbors(before.nodes[top].board));
    && after.covered == before.covered
    && after.nodes == before.nodes + kids
    && after.pq == before.pq + Indices(|before.nodes|, |kids|)
  }

  // ---------------------------------------------------------------------
  // The lockstep search

  datatype Phase = Searching | Solved | Unsolvable

  /** The solver's state between iterations: the primary track (from the
      initial board), the twin track, and whether and how the loop stopped. */
  datatype Search = Search(main: Track, twin: Track, phase: Phase)

  /** What holds between iterations: both tracks are well structured; while
      searching both queues are non-empty, so the loop condition holds and
      `delMin` succeeds; once stopped, the top of the primary stack is a
      goal exactly when the verdict is solvable, and for the unsolvable
      verdict the top of the twin stack is a goal. */
  predicate Consistent(s: Search) {
    && Good(s.main) && Good(s.twin)
    && match s.phase
       case Searching => |s.main.pq| >= 1 && |s.twin.pq| >= 1
       case Solved =>
         |s.main.covered| >= 1 && IsGoal(s.main.nodes[Top(s.main)].board)
       case Unsolvable =>
         && |s.main.covered| >= 1 && !IsGoal(s.main.nodes[Top(s.main)].board)
         && |s.twin.covered| >= 1 && IsGoal(s.twin.nodes[Top(s.twin)].board)
  }

  /** One loop iteration. Both tracks remove a minimum-priority node (any
      one, when priorities tie) and push it on their covered stacks; the
      primary track's goal test comes first, then the twin's; otherwise both
      tracks expand. */
  function Iterate(s: Search, qm: nat, qt: nat): (r: Search)
    requires Consistent(s) && s.phase == Searching
    requires IsMinPos(s.main, qm) && IsMinPos(s.twin, qt)
    ensures Consistent(r)
    ensures r.main.nodes[0] == s.main.nodes[0] && r.twin.nodes[0] == s.twin.nodes[0]
    ensures r.phase == Solved <==> IsGoal(s.main.nodes[s.main.pq[qm]].board)
    ensures r.phase == Unsolvable <==>
      !IsGoal(s.main.nodes[s.main.pq[qm]].board) && IsGoal(s.twin.nodes[s.twin.pq[qt]].board)
    ensures r.phase != Searching ==> r.main == Extract(s.main, qm) && r.twin == Extract(s.twin, qt)
    ensures r.phase == Searching ==>
      Expanded(Extract(s.main, qm), r.main) && Expanded(Extract(s.twin, qt), r.twin)
  {
    var m := Extract(s.main, qm);
    var w := Extract(s.twin, qt);
    if IsGoal(m.nodes[Top(m)].board) then Search(m, w, Solved)
    else if IsGoal(w.nodes[Top(w)].board) then Search(m, w, Unsolvable)
    else Search(Advance(s.main, qm), Advance(s.twin, qt), Searching)
  }

  /** Each iteration covers exactly the extracted entry of each queue. */
  lemma IterateCovers(s: Search, qm: nat, qt: nat)
    requires Consistent(s) && s.phase == Searching
    requires IsMinPos(s.main, qm) && IsMinPos(s.twin, qt)
    ensures Iterate(s, qm, qt).main.covered == s.main.covered + [s.main.pq[qm]]
    ensures Iterate(s, qm, qt).twin.covered == s.twin.covered + [s.twin.pq[qt]]
  {
    var r := Iterate(s, qm, qt);
    var m := Extract(s.main, qm);
    var w := Extract(s.twin, qt);
    if r.phase == Searching {
      assert r.main.covered == m.covered && r.twin.covered == w.covered;
    }
  }

  /** One step of a track whose extracted node is not the goal: queue entry
      q is moved onto the covered stack and then expanded. */
  function Advance(t: Track, q: nat): (r: Track)
    requires Good(t) && q < |t.pq|
    ensures Good(r) && |r.pq| >= 1
    ensures r.covered == t.covered + [t.pq[q]]
    ensures r.nodes[0] == t.nodes[0]
    ensures Expanded(Extract(t, q), r)
  {
    ExpandTop(Extract(t, q))
  }

  /** The state before the loop: the primary track rooted at the initial
      board and the twin track rooted at its twin. */
  function Begin(initial: Board): (s: Search)
    requires WellFormed(initial) && |initial.tiles| >= 2
    ensures Consistent(s) && s.phase == Searching
    ensures s.main.nodes[0].board == initial
    ensures Twin(initial).Found? && s.twin.nodes[0].board == Twin(initial).board
  {
    var twin := Twin(initial);
    Search(Start(initial), Start(twin.board), Searching)
  }

  /** The loop, for at most `fuel` iterations, taking the first
      minimum-priority entry of each queue. The roots stay in place. */
  function Run(s: Search, fuel: nat): (r: Search)
    requires Consistent(s)
    ensures Consistent(r)
    ensures r.main.nodes[0] == s.main.nodes[0] && r.twin.nodes[0] == s.twin.nodes[0]
    ensures s.phase != Searching ==> r == s
    decreases fuel
  {
    if s.phase != Searching || fuel == 0 then s
    else Run(Iterate(s, FirstMin(s.main), FirstMin(s.twin)), fuel - 1)
  }

  // ---------------------------------------------------------------------
  // Reconstruction

  /** The boards from the root to node i along the parent links, one board
      longer than node i's move count: a node's `moves` is the length of its
      parent chain. */
  function Chain(nodes: seq<SearchNode>, i: nat): (p: seq<Board>)
    requires IsTree(nodes) && i < |nodes|
    ensures |p| == nodes[i].moves + 1
    ensures p[0] == nodes[0].board && p[|p| - 1] == nodes[i].board
    decreases i
  {
    assert i == 0 || IsChild(nodes, i);
    match nodes[i].previous
    case None => [nodes[i].board]
    case Some(q) => Chain(nodes, q) + [nodes[i].board]
  }

  /** Consecutive boards of a chain are neighbours. */
  lemma {:induction false} ChainIsPath(nodes: seq<SearchNode>, i: nat)
    requires IsTree(nodes) && i < |nodes|
    ensures IsPath(Chain(nodes, i))
    decreases i
  {
    assert i == 0 || IsChild(nodes, i);
    match nodes[i].previous
    case None =>
    case Some(q) =>
      ChainIsPath(nodes, q);
      var p := Chain(nodes, q);
      assert Chain(nodes, i) == p + [nodes[i].board];
      PathExtend(p, nodes[i].board);
  }

  /** A path extended by a neighbour of its last board is a path. */
  lemma PathExtend(p: seq<Board>, b: Board)
    requires IsPath(p) && |p| >= 1 && WellFormed(b)
    requires b in Neighbors(p[|p| - 1])
    ensures IsPath(p + [b])
  {
    var r := p + [b];
    forall k | 0 <= k < |r|
      ensures WellFormed(r[k])
    {
      if k < |p| {
        assert r[k] == p[k];
      }
    }
    forall k | 0 <= k < |r| - 1
      ensures r[k + 1] in Neighbors(r[k])
    {
      if k < |p| - 1 {
        assert r[k] == p[k] && r[k + 1] == p[k + 1];
      } else {
        assert r[k] == p[|p| - 1] && r[k + 1] == b;
      }
    }
  }

  /** The reconstruction loop: follow `previous` from the top of the primary
      stack, pushing each board; the stack then iterates from the root's
      board to the top's. */
  method Reconstruct(t: Track) returns (solution: seq<Board>)
    requires Good(t) && |t.covered| >= 1
    ensures solution == Chain(t.nodes, Top(t))
    ensures |solution| == t.nodes[Top(t)].moves + 1
    ensures solution[0] == t.nodes[0].board
    ensures solution[|solution| - 1] == t.nodes[Top(t)].board
    ensures IsPath(solution)
  {
    solution := [];
    var lastStep: Option<nat> := Some(Top(t));
    while lastStep.Some?
      invariant lastStep.Some? ==>
        lastStep.value < |t.nodes| && Chain(t.nodes, lastStep.value) + solution == Chain(t.nodes, Top(t))
      invariant lastStep.None? ==> solution == Chain(t.nodes, Top(t))
      decreases if lastStep.Some? then lastStep.value + 1 else 0
    {
      var node := t.nodes[lastStep.value];
      ChainStep(t.nodes, lastStep.value);
      if node.previous.Some? {
        assert Chain(t.nodes, node.previous.value) + ([node.board] + solution)
          == Chain(t.nodes, lastStep.value) + solution;
      }
      solution := [node.board] + solution;
      lastStep := node.previous;
    }
    ChainIsPath(t.nodes, Top(t));
  }

  /** One step of the reconstruction loop: node i's chain is its parent's
      chain followed by its own board, or its board alone at the root. */
  lemma ChainStep(nodes: seq<SearchNode>, i: nat)
    requires IsTree(nodes) && i < |nodes|
    ensures nodes[i].previous.None? ==> Chain(nodes, i) == [nodes[i].board]
    ensures nodes[i].previous.Some? ==>
      && nodes[i].previous.value < i
      && Chain(nodes, i) == Chain(nodes, nodes[i].previous.value) + [nodes[i].board]
  {
    assert i == 0 || IsChild(nodes, i);
  }

  /** An unsolvable verdict carries a witness: the top of the twin stack is
      a goal reached from the twin track's root board by single slides,
      while the top of the primary stack is not a goal. (`Run` keeps the
      roots, and `Begin` roots the twin track at the initial board's twin.) */
  lemma UnsolvableWitness(s: Search)
    requires Consistent(s) && s.phase == Unsolvable
    ensures |s.twin.covered| >= 1 && |s.main.covered| >= 1
    ensures !IsGoal(s.main.nodes[Top(s.main)].board)
    ensures
      var p := Chain(s.twin.nodes, Top(s.twin));
      p[0] == s.twin.nodes[0].board && IsGoal(p[|p| - 1]) && IsPath(p)
  {
    ChainIsPath(s.twin.nodes, Top(s.twin));
  }

  /** A board that is already the goal is solved by the first iteration,
      with the one-board path and no moves. */
  lemma GoalSolvedAtOnce(initial: Board, fuel: nat)
    requires WellFormed(initial) && |initial.tiles| >= 2 && IsGoal(initial)
    requires fuel >= 1
    ensures
      var r := Run(Begin(initial), fuel);
      && r.phase == Solved
      && Top(r.main) == 0
      && Chain(r.main.nodes, Top(r.main)) == [initial]
  {
    var s := Begin(initial);
    assert FirstMin(s.main) == 0;
    var s1 := Iterate(s, 0, FirstMin(s.twin));
    assert s1.main.covered == [0];
    assert Run(s, fuel) == Run(s1, fuel - 1) == s1;
  }

  // ---------------------------------------------------------------------
  // The solver and its accessors

  /** The exceptions the constructor can end in; `OutOfFuel` stands for a
      search still running when the fuel bound is reached. */
  datatype Error = IllegalArgument | IndexOutOfBounds | OutOfFuel

  /** The finished solver: the verdict and the reconstructed board sequence. */
  datatype Solver = Solver(solvable: bool, solution: seq<Board>)

  /** `isSolvable()`: the verdict of the search. On a finished solver it
      is true exactly when the solution ends in a goal. */
  function IsSolvable(s: Solver): (r: bool)
    ensures Finished(s) ==> (r <==> IsGoal(s.solution[|s.solution| - 1]))
  {
    s.solvable
  }

  /** What every constructed solver satisfies: its board sequence is a
      non-empty path of single slides, and it ends at a goal exactly when
      the verdict is solvable. */
  predicate Finished(s: Solver) {
    && |s.solution| >= 1
    && IsPath(s.solution)
    && (s.solvable <==> IsGoal(s.solution[|s.solution| - 1]))
  }

  /** `moves()`: -1 exactly when unsolvable; otherwise the number of slides
      in the solution, which is the index of its goal board. */
  function Moves(s: Solver): (m: int)
    requires Finished(s)
    ensures m == -1 <==> !IsSolvable(s)
    ensures IsSolvable(s) ==>
      && 0 <= m && m + 1 == |s.solution|
      && IsGoal(s.solution[m])
  {
    if !s.solvable then -1 else |s.solution| - 1
  }

  /** `solution()`: absent exactly when unsolvable; otherwise the boards,
      a path of single slides ending at a goal. */
  function SolutionOf(s: Solver): (p: Option<seq<Board>>)
    requires Finished(s)
    ensures p.None? <==> !IsSolvable(s)
    ensures p.Some? ==>
      && p.value == s.solution
      && |p.value| >= 1 && IsPath(p.value)
      && IsGoal(p.value[|p.value| - 1])
  {
    if !s.solvable then None else Some(s.solution)
  }

  /** A stopped search yields a finished solver: the primary track's chain
      to its covered top is a path of single slides, and its last board is
      a goal exactly when the verdict is solvable. */
  lemma StoppedSearchFinishes(s: Search)
    requires Consistent(s) && s.phase != Searching
    ensures |s.main.covered| >= 1
    ensures Finished(Solver(s.phase == Solved, Chain(s.main.nodes, Top(s.main))))
  {
    ChainIsPath(s.main.nodes, Top(s.main));
  }

  /** The constructor: a missing board is rejected before any search; a
      1x1 board makes `twin()` index out of bounds; otherwise the lockstep
      search runs and the primary track's path is reconstructed. The result
      starts at the initial board, moves one slide at a time, and ends at a
      goal exactly when the verdict is solvable. */
  method Solve(initial: Option<Board>, fuel: nat) returns (r: Result<Solver, Error>)
    requires initial.Some? ==> WellFormed(initial.value)
    ensures initial.None? ==> r == Failure(IllegalArgument)
    ensures initial.Some? && |initial.value.tiles| < 2 ==> r == Failure(IndexOutOfBounds)
    ensures initial.Some? && |initial.value.tiles| >= 2 ==> r.Success? || r == Failure(OutOfFuel)
    ensures r.Success? ==>
      && initial.Some?
      && Finished(r.value)
      && r.value.solution[0] == initial.value
    ensures r.Success? && initial.Some? && WellFormed(initial.value) && |initial.value.tiles| >= 2 ==>
      var s := Run(Begin(initial.value), fuel);
      && s.phase != Searching
      && (IsSolvable(r.value) <==> s.phase == Solved)
      && r.value.solution == Chain(s.main.nodes, Top(s.main))
      && (IsSolvable(r.value) ==> Moves(r.value) == s.main.nodes[Top(s.main)].moves)
  {
    if initial.None? {
      return Failure(IllegalArgument);
    }
    var board := initial.value;
    if Twin(board).OutOfBounds? {
      return Failure(IndexOutOfBounds);
    }
    var s := Run(Begin(board), fuel);
    if s.phase == Searching {
      return Failure(OutOfFuel);
    }
    var solution := Reconstruct(s.main);
    StoppedSearchFinishes(s);
    return Success(Solver(s.phase == Solved, solution));
  }
}

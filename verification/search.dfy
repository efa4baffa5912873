/**
 * Breadth-first search (breadthFirstSearch).  Each cell carries a search
 * mark: whether it has been discovered and the path label assigned when it
 * was.  The start cell is discovered first with an empty label; every other
 * cell is labelled exactly once, when it is first reached, with its
 * predecessor's label extended by the letter of the edge taken.
 *
 * The queue is represented by `order`, the sequence of all cells in the order
 * they were enqueued, and `head`, the number already dequeued: the live queue
 * is `order[head..]`.
 */
module Search {
  import opened Graph
  import opened PathText

  /** Per-cell search state: the discovered flag and the path label. */
  datatype Mark = Mark(discovered: bool, path: string)

  /** The state of a vertex before any search. */
  function Fresh(): (m: Mark)
    ensures !m.discovered && m.path == ""
  {
    Mark(false, "")
  }

  /** The label a cell gets when discovered from `v` along an edge with letter
      `letter`: the bare letter when `v` is the start, otherwise `v`'s label,
      a space and the letter. */
  function Extend(vPath: string, vIsStart: bool, letter: char): (t: string)
    ensures |t| > 0 && t[|t| - 1] == letter
    ensures vIsStart ==> |t| == 1
    ensures !vIsStart ==> |t| == |vPath| + 2 && t[..|vPath|] == vPath && t[|vPath|] == ' '
  {
    if vIsStart then [letter] else vPath + " " + [letter]
  }

  /** Extending the rendering of a walk's letters by one letter renders the
      walk extended by one edge, whether or not the walk is empty. */
  lemma ExtendRenders(ls: seq<char>, vIsStart: bool, letter: char)
    requires vIsStart <==> |ls| == 0
    ensures Extend(Render(ls), vIsStart, letter) == Render(ls + [letter])
  {
    RenderSnoc(ls, letter);
  }

  /** Every edge out of `u` leads to a discovered cell at most one move
      further from the start than `u`. */
  ghost predicate Settled(g: seq<Vertex>, marks: seq<Mark>, moves: seq<seq<Edge>>, u: nat)
    requires Closed(g) && u < |g| && |marks| == |g| && |moves| == |g|
  {
    forall e :: e in g[u].adj ==> marks[e.target].discovered && |moves[e.target]| <= |moves[u]| + 1
  }

  /** Each discovered cell's label spells a walk from the start to it. */
  ghost predicate Witnessed(g: seq<Vertex>, s: nat, marks: seq<Mark>, moves: seq<seq<Edge>>)
    requires |marks| == |g| && |moves| == |g|
  {
    forall u :: 0 <= u < |g| && marks[u].discovered ==>
      && IsWalk(g, s, moves[u]) && End(s, moves[u]) == u
      && marks[u].path == Render(Labels(moves[u]))
      && (u != s ==> |moves[u]| > 0)
  }

  /** `order` lists each discovered cell exactly once, starting with `s`. */
  ghost predicate Enqueued(n: nat, s: nat, marks: seq<Mark>, order: seq<nat>)
    requires |marks| == n
  {
    && |order| > 0 && order[0] == s
    && (forall i :: 0 <= i < |order| ==> order[i] < n && marks[order[i]].discovered)
    && (forall u :: 0 <= u < n && marks[u].discovered ==> u in order)
    && (forall i, j :: 0 <= i < j < |order| ==> order[i] != order[j])
  }

  /** Distances from the start never decrease along `order`. */
  ghost predicate Sorted(moves: seq<seq<Edge>>, order: seq<nat>)
    requires forall i :: 0 <= i < |order| ==> order[i] < |moves|
  {
    forall i, j :: 0 <= i <= j < |order| ==> |moves[order[i]]| <= |moves[order[j]]|
  }

  /** Cells not yet discovered still have their fresh state. */
  ghost predicate Untouched(marks: seq<Mark>) {
    forall u :: 0 <= u < |marks| && !marks[u].discovered ==> marks[u].path == ""
  }

  /** The bookkeeping shared by every point of the search: the start comes
      first with an empty label, `order` lists each discovered cell exactly
      once, undiscovered cells are untouched, every label spells a walk to
      its cell, and distances along `order` never decrease. */
  ghost predicate QueueInv(g: seq<Vertex>, s: nat, marks: seq<Mark>, moves: seq<seq<Edge>>, order: seq<nat>) {
    && |marks| == |g| && |moves| == |g| && s < |g|
    && marks[s] == Mark(true, "") && moves[s] == []
    && Enqueued(|g|, s, marks, order)
    && Untouched(marks)
    && Witnessed(g, s, marks, moves)
    && Sorted(moves, order)
  }

  /** `undiscovered` is the set of cells not yet discovered. */
  ghost predicate Pending(g: seq<Vertex>, marks: seq<Mark>, undiscovered: set<nat>)
    requires |marks| == |g|
  {
    forall u :: u in undiscovered <==> 0 <= u < |g| && !marks[u].discovered
  }

  method Bfs(g: seq<Vertex>, s: nat) returns (marks: seq<Mark>, order: seq<nat>)
    requires Closed(g) && s < |g|
    ensures |marks| == |g|
    // the start is discovered first and keeps its empty label
    ensures |order| > 0 && order[0] == s && marks[s] == Mark(true, "")
    // each cell is enqueued at most once, and exactly the discovered ones are
    ensures forall i, j :: 0 <= i < j < |order| ==> order[i] != order[j]
    ensures forall i :: 0 <= i < |order| ==> order[i] < |g| && marks[order[i]].discovered
    ensures forall u :: 0 <= u < |g| && marks[u].discovered ==> u in order
    // cells are enqueued in order of non-decreasing distance, so label lengths never decrease
    ensures forall i, j :: 0 <= i <= j < |order| ==> |marks[order[i]].path| <= |marks[order[j]].path|
    // discovered exactly when reachable; the others keep the fresh state
    ensures forall u :: 0 <= u < |g| ==> (marks[u].discovered <==> Reachable(g, s, u))
    ensures forall u :: 0 <= u < |g| && !marks[u].discovered ==> marks[u] == Fresh()
    // each label spells a shortest walk from the start
    ensures forall u :: 0 <= u < |g| && marks[u].discovered ==>
              exists es :: ShortestWalk(g, s, es, u) && marks[u].path == Render(Labels(es))
  {
    var n := |g|;
    marks := seq(n, _ => Fresh())[s := Mark(true, "")];
    order := [s];
    var head := 0;
    ghost var moves: seq<seq<Edge>> := seq(n, _ => []);
    ghost var undiscovered: set<nat> := set u: nat | u < n && !marks[u].discovered;

    while head < |order|
      invariant QueueInv(g, s, marks, moves, order)
      invariant Pending(g, marks, undiscovered)
      invariant 0 <= head <= |order|
      // the live queue spans at most one step of distance
      invariant head < |order| ==> forall j :: 0 <= j < |order| ==> |moves[order[j]]| <= |moves[order[head]]| + 1
      // every dequeued cell has had all its edges followed
      invariant forall i :: 0 <= i < head ==> Settled(g, marks, moves, order[i])
      decreases |undiscovered|, |order| - head
    {
      var v := order[head];
      ghost var marks0, moves0, order0 := marks, moves, order;
      ghost var ks;
      marks, order, moves, undiscovered, ks := Expand(g, s, v, marks, order, moves, undiscovered);
      DequeueKeepsInvariant(g, s, marks0, moves0, order0, marks, moves, order, head);
      head := head + 1;
    }

    SearchComplete(g, s, marks, moves, order);
    LabelLengthsSorted(g, s, marks, moves, order);
  }

  /** After the cell at `head` has been expanded, every cell up to it is
      settled and the live queue still spans at most one step of distance. */
  lemma DequeueKeepsInvariant(g: seq<Vertex>, s: nat,
                              marks: seq<Mark>, moves: seq<seq<Edge>>, order: seq<nat>,
                              marks': seq<Mark>, moves': seq<seq<Edge>>, order': seq<nat>, head: nat)
    requires Closed(g) && QueueInv(g, s, marks, moves, order) && QueueInv(g, s, marks', moves', order')
    requires head < |order|
    requires forall i :: 0 <= i < head ==> Settled(g, marks, moves, order[i])
    requires |order| <= |order'| && forall i :: 0 <= i < |order| ==> order'[i] == order[i]
    requires forall j :: 0 <= j < |order'| ==> |moves'[order'[j]]| <= |moves[order[head]]| + 1
    requires forall u :: 0 <= u < |g| && marks[u].discovered ==> marks'[u] == marks[u] && moves'[u] == moves[u]
    requires Settled(g, marks', moves', order[head])
    ensures forall i :: 0 <= i <= head ==> Settled(g, marks', moves', order'[i])
    ensures head + 1 < |order'| ==>
              forall j :: 0 <= j < |order'| ==> |moves'[order'[j]]| <= |moves'[order'[head + 1]]| + 1
  {
  }

  /** A label's length grows with the number of moves it spells, so labels
      along the queue never get shorter. */
  lemma LabelLengthsSorted(g: seq<Vertex>, s: nat, marks: seq<Mark>, moves: seq<seq<Edge>>, order: seq<nat>)
    requires QueueInv(g, s, marks, moves, order)
    ensures forall i, j :: 0 <= i <= j < |order| ==> |marks[order[i]].path| <= |marks[order[j]].path|
  {
  }

  /** When every discovered cell is settled, a cell is discovered exactly when
      it is reachable, and its label spells a shortest walk to it. */
  lemma SearchComplete(g: seq<Vertex>, s: nat, marks: seq<Mark>, moves: seq<seq<Edge>>, order: seq<nat>)
    requires Closed(g) && QueueInv(g, s, marks, moves, order)
    requires forall i :: 0 <= i < |order| ==> Settled(g, marks, moves, order[i])
    ensures forall u :: 0 <= u < |g| ==> (marks[u].discovered <==> Reachable(g, s, u))
    ensures forall u :: 0 <= u < |g| && marks[u].discovered ==>
              exists es :: ShortestWalk(g, s, es, u) && marks[u].path == Render(Labels(es))
  {
    forall u | 0 <= u < |g| && marks[u].discovered
      ensures Settled(g, marks, moves, u)
    {
      var i :| 0 <= i < |order| && order[i] == u;
    }
    WalksAreCovered(g, s, marks, moves);
    forall u | 0 <= u < |g|
      ensures marks[u].discovered <==> Reachable(g, s, u)
    {
      if marks[u].discovered {
        assert IsWalk(g, s, moves[u]) && End(s, moves[u]) == u;
      }
    }
    forall u | 0 <= u < |g| && marks[u].discovered
      ensures exists es :: ShortestWalk(g, s, es, u) && marks[u].path == Render(Labels(es))
    {
      assert ShortestWalk(g, s, moves[u], u);
    }
  }

  /** Follows every edge out of the dequeued cell `v` in adjacency order,
      discovering, labelling and enqueueing each target not yet discovered. */
  method Expand(g: seq<Vertex>, s: nat, v: nat, marks: seq<Mark>, order: seq<nat>,
                ghost moves: seq<seq<Edge>>, ghost undiscovered: set<nat>)
    returns (marks': seq<Mark>, order': seq<nat>, ghost moves': seq<seq<Edge>>, ghost undiscovered': set<nat>,
             ghost ks: seq<nat>)
    requires Closed(g) && QueueInv(g, s, marks, moves, order) && Pending(g, marks, undiscovered)
    requires v < |g| && marks[v].discovered
    requires forall j :: 0 <= j < |order| ==> |moves[order[j]]| <= |moves[v]| + 1
    ensures QueueInv(g, s, marks', moves', order') && Pending(g, marks', undiscovered')
    ensures |undiscovered'| + |order'| == |undiscovered| + |order|
    // cells are only appended to the queue, each one move further than `v`
    ensures |order| <= |order'| && forall i :: 0 <= i < |order| ==> order'[i] == order[i]
    ensures forall j :: 0 <= j < |order'| ==> |moves'[order'[j]]| <= |moves[v]| + 1
    // labels, once assigned, are never overwritten
    ensures forall u :: 0 <= u < |g| && marks[u].discovered ==> marks'[u] == marks[u] && moves'[u] == moves[u]
    ensures Settled(g, marks', moves', v)
    // the appended cells are targets of `v`'s edges, in adjacency order, labelled from `v`'s label
    ensures AppendedInOrder(g[v].adj, ks, order, order', marks', marks[v].path, v == s)
  {
    marks', order', moves', undiscovered' := marks, order, moves, undiscovered;
    var adj := g[v].adj;
    var k := 0;
    ks := [];
    while k < |adj|
      invariant 0 <= k <= |adj|
      invariant QueueInv(g, s, marks', moves', order') && Pending(g, marks', undiscovered')
      invariant |undiscovered'| + |order'| == |undiscovered| + |order|
      invariant |order| <= |order'| && forall i :: 0 <= i < |order| ==> order'[i] == order[i]
      invariant forall j :: 0 <= j < |order'| ==> |moves'[order'[j]]| <= |moves[v]| + 1
      invariant forall u :: 0 <= u < |g| && marks[u].discovered ==> marks'[u] == marks[u] && moves'[u] == moves[u]
      invariant Followed(marks', moves', adj, k, |moves[v]| + 1)
      invariant AppendedInOrder(adj, ks, order, order', marks', marks[v].path, v == s)
      invariant forall i :: 0 <= i < |ks| ==> ks[i] < k
    {
      ghost var marks1, moves1, order1 := marks', moves', order';
      marks', order', moves', undiscovered' := Visit(g, s, v, adj[k], marks', order', moves', undiscovered');
      FollowedGrows(marks1, moves1, marks', moves', adj, k, |moves[v]| + 1);
      ks := AppendedStep(g, s, adj, ks, k, order, order1, marks1, order', marks', marks[v].path, v == s);
      k := k + 1;
    }
    forall e | e in adj
      ensures marks'[e.target].discovered && |moves'[e.target]| <= |moves'[v]| + 1
    {
      var i :| 0 <= i < |adj| && adj[i] == e;
    }
  }

  /** The cells `order'` adds after `order` are the targets of the edges
      `adj[ks[0]], adj[ks[1]], …`, taken at strictly increasing positions, and
      each carries `vPath` extended by the letter of its edge. */
  ghost predicate AppendedInOrder(adj: seq<Edge>, ks: seq<nat>, order: seq<nat>, order': seq<nat>,
                                  marks': seq<Mark>, vPath: string, vIsStart: bool)
  {
    && |order'| == |order| + |ks|
    && (forall i :: 0 <= i < |ks| ==>
          && ks[i] < |adj|
          && order'[|order| + i] == adj[ks[i]].target
          && adj[ks[i]].target < |marks'|
          && marks'[adj[ks[i]].target].path == Extend(vPath, vIsStart, adj[ks[i]].letter))
    && (forall i, j :: 0 <= i < j < |ks| ==> ks[i] < ks[j])
  }

  /** Following edge `k` keeps the record of appended cells: `ks` grows by
      `k` exactly when the edge's target was newly discovered and enqueued. */
  lemma AppendedStep(g: seq<Vertex>, s: nat, adj: seq<Edge>, ks: seq<nat>, k: nat,
                     order: seq<nat>, order1: seq<nat>, marks1: seq<Mark>, order2: seq<nat>, marks2: seq<Mark>,
                     vPath: string, vIsStart: bool)
    returns (ks': seq<nat>)
    requires |marks1| == |g| && Enqueued(|g|, s, marks1, order1)
    requires AppendedInOrder(adj, ks, order, order1, marks1, vPath, vIsStart)
    requires k < |adj| && adj[k].target < |g| && forall i :: 0 <= i < |ks| ==> ks[i] < k
    requires |marks2| == |g|
    requires forall u :: 0 <= u < |g| && marks1[u].discovered ==> marks2[u] == marks1[u]
    requires marks1[adj[k].target].discovered ==> marks2 == marks1 && order2 == order1
    requires !marks1[adj[k].target].discovered ==>
               && order2 == order1 + [adj[k].target]
               && marks2[adj[k].target].path == Extend(vPath, vIsStart, adj[k].letter)
    ensures AppendedInOrder(adj, ks', order, order2, marks2, vPath, vIsStart)
    ensures forall i :: 0 <= i < |ks'| ==> ks'[i] < k + 1
  {
    if marks1[adj[k].target].discovered {
      return ks;
    }
    ks' := ks + [k];
    forall i | 0 <= i < |ks|
      ensures marks2[adj[ks'[i]].target] == marks1[adj[ks[i]].target]
    {
      assert order1[|order| + i] == adj[ks[i]].target;
    }
  }

  /** The targets of the first `k` edges of `adj` are discovered, within
      `bound` moves of the start. */
  ghost predicate Followed(marks: seq<Mark>, moves: seq<seq<Edge>>, adj: seq<Edge>, k: nat, bound: nat)
    requires k <= |adj|
  {
    forall i :: 0 <= i < k ==>
      adj[i].target < |marks| && adj[i].target < |moves|
      && marks[adj[i].target].discovered && |moves[adj[i].target]| <= bound
  }

  lemma FollowedGrows(marks: seq<Mark>, moves: seq<seq<Edge>>, marks': seq<Mark>, moves': seq<seq<Edge>>,
                      adj: seq<Edge>, k: nat, bound: nat)
    requires k < |adj| && |marks| == |moves| == |marks'| == |moves'|
    requires Followed(marks, moves, adj, k, bound)
    requires forall u :: 0 <= u < |marks| && marks[u].discovered ==> marks'[u] == marks[u] && moves'[u] == moves[u]
    requires adj[k].target < |marks'| && marks'[adj[k].target].discovered && |moves'[adj[k].target]| <= bound
    ensures Followed(marks', moves', adj, k + 1, bound)
  {
  }

  /** Follows one edge `e` out of the dequeued cell `v`: if its target is not
      yet discovered, marks it discovered, gives it `v`'s label extended by
      the edge's letter, and enqueues it. */
  method Visit(g: seq<Vertex>, s: nat, v: nat, e: Edge, marks: seq<Mark>, order: seq<nat>,
               ghost moves: seq<seq<Edge>>, ghost undiscovered: set<nat>)
    returns (marks': seq<Mark>, order': seq<nat>, ghost moves': seq<seq<Edge>>, ghost undiscovered': set<nat>)
    requires Closed(g) && QueueInv(g, s, marks, moves, order) && Pending(g, marks, undiscovered)
    requires v < |g| && marks[v].discovered && e in g[v].adj
    requires forall j :: 0 <= j < |order| ==> |moves[order[j]]| <= |moves[v]| + 1
    ensures QueueInv(g, s, marks', moves', order') && Pending(g, marks', undiscovered')
    ensures |undiscovered'| + |order'| == |undiscovered| + |order|
    ensures |order| <= |order'| && forall i :: 0 <= i < |order| ==> order'[i] == order[i]
    ensures forall j :: 0 <= j < |order'| ==> |moves'[order'[j]]| <= |moves[v]| + 1
    ensures forall u :: 0 <= u < |g| && marks[u].discovered ==> marks'[u] == marks[u] && moves'[u] == moves[u]
    // the target ends up discovered, at most one move further than `v`
    ensures marks'[e.target].discovered && |moves'[e.target]| <= |moves[v]| + 1
    // an already discovered target leaves the marks and the queue unchanged
    ensures marks[e.target].discovered ==> marks' == marks && order' == order
    // a newly discovered target gets `v`'s label extended by the edge's letter
    ensures !marks[e.target].discovered ==>
              && order' == order + [e.target]
              && marks'[e.target].path == (if v == s then [e.letter] else marks[v].path + " " + [e.letter])
  {
    if marks[e.target].discovered {
      return marks, order, moves, undiscovered;
    }
    var text := Extend(marks[v].path, v == s, e.letter);
    DiscoveryKeepsInvariant(g, s, marks, moves, order, undiscovered, v, e);
    marks' := marks[e.target := Mark(true, text)];
    moves' := moves[e.target := moves[v] + [e]];
    order' := order + [e.target];
    undiscovered' := undiscovered - {e.target};
  }

  /** Discovering the target of an edge out of a discovered cell `v` gives it
      the label of `v`'s walk extended by that edge. */
  lemma DiscoveryWitnessed(g: seq<Vertex>, s: nat, marks: seq<Mark>, moves: seq<seq<Edge>>, v: nat, e: Edge)
    requires Closed(g) && |marks| == |g| && |moves| == |g|
    requires Witnessed(g, s, marks, moves)
    requires s < |g| && moves[s] == []
    requires v < |g| && marks[v].discovered && e in g[v].adj && !marks[e.target].discovered
    ensures Witnessed(g, s, marks[e.target := Mark(true, Extend(marks[v].path, v == s, e.letter))],
                      moves[e.target := moves[v] + [e]])
  {
    var w := e.target;
    var marks', moves' := marks[w := Mark(true, Extend(marks[v].path, v == s, e.letter))], moves[w := moves[v] + [e]];
    WalkExtend(g, s, moves[v], e);
    ExtendRenders(Labels(moves[v]), v == s, e.letter);
    forall u | 0 <= u < |g| && marks'[u].discovered
      ensures && IsWalk(g, s, moves'[u]) && End(s, moves'[u]) == u
              && marks'[u].path == Render(Labels(moves'[u]))
              && (u != s ==> |moves'[u]| > 0)
    {
      if u != w {
        assert marks'[u] == marks[u] && moves'[u] == moves[u];
      }
    }
  }

  /** Discovering, labelling and enqueueing one new cell keeps the shared
      bookkeeping, provided it is no closer to the start than the queue's tail. */
  lemma DiscoveryKeepsInvariant(g: seq<Vertex>, s: nat, marks: seq<Mark>, moves: seq<seq<Edge>>,
                                order: seq<nat>, undiscovered: set<nat>, v: nat, e: Edge)
    requires Closed(g) && QueueInv(g, s, marks, moves, order) && Pending(g, marks, undiscovered)
    requires v < |g| && marks[v].discovered && e in g[v].adj && !marks[e.target].discovered
    requires forall j :: 0 <= j < |order| ==> |moves[order[j]]| <= |moves[v]| + 1
    ensures var marks' := marks[e.target := Mark(true, Extend(marks[v].path, v == s, e.letter))];
            && QueueInv(g, s, marks', moves[e.target := moves[v] + [e]], order + [e.target])
            && Pending(g, marks', undiscovered - {e.target})
            && |undiscovered - {e.target}| == |undiscovered| - 1
  {
    var w := e.target;
    var marks' := marks[w := Mark(true, Extend(marks[v].path, v == s, e.letter))];
    DiscoveryWitnessed(g, s, marks, moves, v, e);
    DiscoveryEnqueued(|g|, s, marks, order, w, marks'[w]);
    DiscoverySorted(moves, order, w, moves[v] + [e]);
  }

  lemma DiscoveryEnqueued(n: nat, s: nat, marks: seq<Mark>, order: seq<nat>, w: nat, m: Mark)
    requires |marks| == n && Enqueued(n, s, marks, order)
    requires w < n && !marks[w].discovered && m.discovered
    ensures Enqueued(n, s, marks[w := m], order + [w])
  {
    assert w !in order;
  }

  lemma DiscoverySorted(moves: seq<seq<Edge>>, order: seq<nat>, w: nat, walk: seq<Edge>)
    requires forall i :: 0 <= i < |order| ==> order[i] < |moves|
    requires Sorted(moves, order) && w < |moves| && w !in order
    requires forall j :: 0 <= j < |order| ==> |moves[order[j]]| <= |walk|
    ensures Sorted(moves[w := walk], order + [w])
  {
    var moves', order' := moves[w := walk], order + [w];
    forall i, j | 0 <= i <= j < |order'|
      ensures |moves'[order'[i]]| <= |moves'[order'[j]]|
    {
      if j < |order| {
        assert order'[i] == order[i] && order'[j] == order[j];
        assert order[i] != w && order[j] != w;
      } else if i < |order| {
        assert order[i] != w;
      }
    }
  }

  /** Once every discovered cell is settled, the discovered cells are closed
      under walks from the start and no walk beats a recorded distance. */
  lemma WalksAreCovered(g: seq<Vertex>, s: nat, marks: seq<Mark>, moves: seq<seq<Edge>>)
    requires Closed(g) && s < |g| && |marks| == |g| && |moves| == |g|
    requires marks[s].discovered && moves[s] == []
    requires forall u :: 0 <= u < |g| && marks[u].discovered ==> Settled(g, marks, moves, u)
    ensures forall es :: IsWalk(g, s, es) ==>
              End(s, es) < |g| && marks[End(s, es)].discovered && |moves[End(s, es)]| <= |es|
  {
    forall es | IsWalk(g, s, es)
      ensures End(s, es) < |g| && marks[End(s, es)].discovered && |moves[End(s, es)]| <= |es|
    {
      WalkCovered(g, s, marks, moves, es);
    }
  }

  lemma {:induction false} WalkCovered(g: seq<Vertex>, s: nat, marks: seq<Mark>, moves: seq<seq<Edge>>, es: seq<Edge>)
    requires Closed(g) && s < |g| && |marks| == |g| && |moves| == |g|
    requires marks[s].discovered && moves[s] == []
    requires forall u :: 0 <= u < |g| && marks[u].discovered ==> Settled(g, marks, moves, u)
    requires IsWalk(g, s, es)
    ensures End(s, es) < |g| && marks[End(s, es)].discovered && |moves[End(s, es)]| <= |es|
    decreases |es|
  {
    if |es| > 0 {
      var p := es[..|es| - 1];
      WalkSplitLast(g, s, es);
      WalkCovered(g, s, marks, moves, p);
      var mid := End(s, p);
      assert Settled(g, marks, moves, mid);
      assert es[|es| - 1] in g[mid].adj;
    }
  }
}

/**
 * The maze as a directed graph: a sequence of vertices, each holding its
 * coordinate and an ordered adjacency list of labelled edges.  An edge stores
 * the index of its target in the same sequence, so it refers to a cell of
 * the store without owning it.
 */
module Graph {
  import opened Grid

  /** A movement: a one-character direction letter (the source's `label`) and the index of the cell it leads to. */
  datatype Edge = Edge(letter: char, target: nat)

  /** A position of the maze and the movements that leave it, in insertion order. */
  datatype Vertex = Vertex(coord: Coord, adj: seq<Edge>)

  /** Every edge points back into the store. */
  predicate Closed(g: seq<Vertex>) {
    forall u, e :: 0 <= u < |g| && e in g[u].adj ==> e.target < |g|
  }

  /** The cell a sequence of edges taken from `s` ends at. */
  function End(s: nat, es: seq<Edge>): nat {
    if |es| == 0 then s else es[|es| - 1].target
  }

  /** `es` is a walk out of `s`: each edge leaves the cell the previous one reached. */
  ghost predicate IsWalk(g: seq<Vertex>, s: nat, es: seq<Edge>) {
    && s < |g|
    && (|es| > 0 ==> es[0] in g[s].adj)
    && forall i :: 0 <= i < |es| - 1 ==> es[i].target < |g| && es[i + 1] in g[es[i].target].adj
  }

  /** The direction letters along a walk. */
  function Labels(es: seq<Edge>): seq<char> {
    seq(|es|, i requires 0 <= i < |es| => es[i].letter)
  }

  ghost predicate Reachable(g: seq<Vertex>, s: nat, u: nat) {
    exists es :: IsWalk(g, s, es) && End(s, es) == u
  }

  /** `es` is a walk from `s` to `u` with the fewest edges of all such walks. */
  ghost predicate ShortestWalk(g: seq<Vertex>, s: nat, es: seq<Edge>, u: nat) {
    && IsWalk(g, s, es) && End(s, es) == u
    && forall es' :: IsWalk(g, s, es') && End(s, es') == u ==> |es| <= |es'|
  }

  /** Following one more edge out of the end of a walk gives a longer walk. */
  lemma WalkExtend(g: seq<Vertex>, s: nat, es: seq<Edge>, e: Edge)
    requires IsWalk(g, s, es) && End(s, es) < |g| && e in g[End(s, es)].adj
    ensures IsWalk(g, s, es + [e]) && End(s, es + [e]) == e.target
    ensures Labels(es + [e]) == Labels(es) + [e.letter]
  {
    assert Labels(es + [e]) == Labels(es) + [e.letter];
  }

  /** A non-empty walk is a shorter walk followed by one edge out of its end. */
  lemma WalkSplitLast(g: seq<Vertex>, s: nat, es: seq<Edge>)
    requires IsWalk(g, s, es) && |es| > 0
    ensures var p := es[..|es| - 1];
            && IsWalk(g, s, p) && End(s, p) < |g|
            && es[|es| - 1] in g[End(s, p)].adj
  {
  }
}

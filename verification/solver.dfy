/**
 * The whole pipeline behind outputSolution: build the maze, search it from
 * the start cell, and report the goal's path label.  An unreached goal is
 * reported as `Unreachable`; the text the program writes for it is empty.
 */
module Solver {
  import opened Wrappers
  import opened Grid
  import opened Directions
  import opened Graph
  import opened PathText
  import opened Construction
  import opened Search

  datatype Answer = Found(path: string) | Unreachable

  /** The text written for an answer: the goal's label, empty when there is none. */
  function OutputText(a: Answer): (t: string)
    ensures a.Found? ==> t == a.path
    ensures a.Unreachable? ==> t == Fresh().path
  {
    match a
    case Found(p) => p
    case Unreachable => ""
  }

  /** In a built maze the letters along a walk name moves that, applied to the
      coordinate of its first cell, land on the coordinate of its last cell. */
  lemma {:induction false} WalkLandsOnCoord(m: Maze, s: nat, es: seq<Edge>)
    requires ValidMaze(m) && IsWalk(m.cells, s, es)
    ensures End(s, es) < |m.cells|
    ensures NoSpaces(Labels(es))
    ensures Moves(Labels(es)).Some?
    ensures Follow(m.cells[s].coord, Moves(Labels(es)).value) == m.cells[End(s, es)].coord
    decreases |es|
  {
    if |es| > 0 {
      var p := es[..|es| - 1];
      var e := es[|es| - 1];
      WalkSplitLast(m.cells, s, es);
      WalkLandsOnCoord(m, s, p);
      EdgeFollowsLetter(m, End(s, p), e);
      assert p + [e] == es;
      WalkExtend(m.cells, s, p, e);
      MovesSnoc(Labels(p), e.letter);
      FollowSnoc(m.cells[s].coord, Moves(Labels(p)).value, FromLetter(e.letter).value);
    }
  }

  /** Searches a built maze from its start cell and reports the goal's label
      (outputSolution without the file): `Unreachable` when the search never
      discovered the goal.  The ghost `walk` is the shortest walk the found
      label spells. */
  method GoalAnswer(m: Maze) returns (a: Answer, ghost walk: seq<Edge>)
    requires ValidMaze(m)
    ensures a.Found? <==> Reachable(m.cells, m.start, m.goal)
    ensures a.Found? ==>
              && ShortestWalk(m.cells, m.start, walk, m.goal) && a.path == Render(Labels(walk))
              && Decode(a.path).Some?
              && Follow(m.cells[m.start].coord, Decode(a.path).value) == m.cells[m.goal].coord
              && forall es :: IsWalk(m.cells, m.start, es) && End(m.start, es) == m.goal ==>
                   |Decode(a.path).value| <= |es|
    ensures m.start == m.goal ==> a == Found("")
  {
    var marks, order := Bfs(m.cells, m.start);
    if marks[m.goal].discovered {
      a := Found(marks[m.goal].path);
      walk :| ShortestWalk(m.cells, m.start, walk, m.goal) && marks[m.goal].path == Render(Labels(walk));
      WalkLandsOnCoord(m, m.start, walk);
      ParseRender(Labels(walk));
      assert Decode(a.path) == Moves(Labels(walk));
      if m.start == m.goal {
        assert IsWalk(m.cells, m.start, []) && End(m.start, []) == m.goal;
        assert |walk| == 0;
        assert Labels(walk) == [];
      }
    } else {
      a, walk := Unreachable, [];
    }
  }

  method Solve(d: Dims, start: Coord, goal: Coord, flags: seq<string>)
    returns (r: Result<Answer, BuildError>, ghost walk: seq<Edge>)
    ensures r.Failure? <==> !WellFormed(d, start, goal, flags)
    ensures r.Failure? ==> r.error == Build(d, start, goal, flags).error
    // the goal is found exactly when some walk of movements leads to it
    ensures r.Success? ==>
              var m := Build(d, start, goal, flags).value;
              r.value.Found? <==> Reachable(m.cells, m.start, m.goal)
    // a found label spells the letters of `walk`, a shortest walk from start to goal,
    // so it decodes to moves that lead from start to goal, and no walk is shorter
    ensures r.Success? && r.value.Found? ==>
              var m := Build(d, start, goal, flags).value;
              && ShortestWalk(m.cells, m.start, walk, m.goal) && r.value.path == Render(Labels(walk))
              && Decode(r.value.path).Some?
              && Follow(start, Decode(r.value.path).value) == goal
              && forall es :: IsWalk(m.cells, m.start, es) && End(m.start, es) == m.goal ==>
                   |Decode(r.value.path).value| <= |es|
    // a maze whose start is its goal yields the empty path, not "unreachable"
    ensures r.Success? && start == goal ==> r.value == Found("")
  {
    var b := Build(d, start, goal, flags);
    if b.Failure? {
      return Failure(b.error), [];
    }
    var a;
    a, walk := GoalAnswer(b.value);
    r := Success(a);
  }
}

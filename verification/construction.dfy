/**
 * Graph construction (initGraph): one flag string per cell, in the order of
 * the nested level/row/column loops, turned into the cell store.  A '1' at
 * flag position p adds the movement of direction code p; any other character
 * adds nothing.  Construction fails on the first '1' that names no direction
 * or whose neighbour lies outside the maze, and when the dimensions, the
 * number of flag strings or the start/goal coordinates are unusable.
 */
module Construction {
  import opened Wrappers
  import opened Grid
  import opened Directions
  import opened Graph

  datatype BuildError =
    | BadDimensions(dims: Dims)
    | MissingFlags(expected: int, given: int)
    | BadDirection(cell: Coord, position: nat)
    | EdgeOutOfBounds(cell: Coord, dir: Direction)
    | StartOutOfBounds(start: Coord)
    | GoalOutOfBounds(goal: Coord)

  /** The built maze: its extent, the cell store, and the indices of the start
      and goal cells. */
  datatype Maze = Maze(dims: Dims, cells: seq<Vertex>, start: nat, goal: nat)

  /** The flag position whose '1' produces an edge with letter `ch`, if `ch`
      is a direction letter. */
  function FlagPos(ch: char): Option<nat> {
    match FromLetter(ch)
    case Some(dir) => Some(Code(dir))
    case None => None
  }

  /** A '1' at flag position `p` of cell `c` names a direction whose neighbour
      is inside the maze. */
  predicate OpenFlagOk(d: Dims, c: Coord, p: int) {
    FromCode(p).Some? && InBounds(d, Neighbour(c, FromCode(p).value))
  }

  /** Every '1' in the flag string `f` of cell `c` is acceptable. */
  predicate FlagsOk(d: Dims, c: Coord, f: string) {
    forall p :: 0 <= p < |f| && f[p] == '1' ==> OpenFlagOk(d, c, p)
  }

  /** The number of '1' characters in `f` from position `e` on. */
  function Ones(f: string, e: nat): nat
    requires e <= |f|
    decreases |f| - e
  {
    if e == |f| then 0 else (if f[e] == '1' then 1 else 0) + Ones(f, e + 1)
  }

  /** The movement added for a '1' at flag position `p` of cell `c`. */
  function EdgeAt(d: Dims, c: Coord, p: nat): (r: Result<Edge, BuildError>)
    requires Positive(d)
    ensures r.Success? <==> OpenFlagOk(d, c, p)
    ensures r.Success? ==>
              && FlagPos(r.value.letter) == Some(p)
              && r.value.target < Size(d)
              && CoordOf(d, r.value.target) == Neighbour(c, FromCode(p).value)
    ensures r.Failure? && p >= 6 ==> r.error == BadDirection(c, p)
    ensures r.Failure? && p < 6 ==> r.error == EdgeOutOfBounds(c, FromCode(p).value)
  {
    match FromCode(p)
    case None => Failure(BadDirection(c, p))
    case Some(dir) =>
      var nb := Neighbour(c, dir);
      if !InBounds(d, nb) then Failure(EdgeOutOfBounds(c, dir))
      else
        CoordOfPos(d, nb);
        LetterRoundTrip(dir);
        Success(Edge(Letter(dir), Pos(d, nb)))
  }

  /** The adjacency list of cell `c` built from flag positions `e..` of `f`. */
  function CellEdges(d: Dims, c: Coord, f: string, e: nat): (r: Result<seq<Edge>, BuildError>)
    requires Positive(d) && e <= |f|
    ensures r.Success? <==> forall p :: e <= p < |f| && f[p] == '1' ==> OpenFlagOk(d, c, p)
    // one movement per '1' and none for any other character
    ensures r.Success? ==> |r.value| == Ones(f, e)
    ensures r.Success? ==> forall p :: e <= p < |f| && f[p] == '1' ==> EdgeAt(d, c, p).value in r.value
    // the error reported is the one of the first offending '1'
    ensures r.Failure? ==>
              exists p ::
                && e <= p < |f| && f[p] == '1' && !OpenFlagOk(d, c, p)
                && r.error == EdgeAt(d, c, p).error
                && forall q :: e <= q < p && f[q] == '1' ==> OpenFlagOk(d, c, q)
    decreases |f| - e
  {
    if e == |f| then Success([])
    else if f[e] != '1' then CellEdges(d, c, f, e + 1)
    else
      match EdgeAt(d, c, e)
      case Failure(err) => Failure(err)
      case Success(ed) =>
        match CellEdges(d, c, f, e + 1)
        case Failure(err) => Failure(err)
        case Success(rest) => Success([ed] + rest)
  }

  /** Each movement of a built adjacency list comes from a '1' at the flag
      position its letter stands for. */
  lemma {:induction false} CellEdgesPositions(d: Dims, c: Coord, f: string, e: nat)
    requires Positive(d) && e <= |f| && CellEdges(d, c, f, e).Success?
    ensures var adj := CellEdges(d, c, f, e).value;
            forall i :: 0 <= i < |adj| ==>
              && FlagPos(adj[i].letter).Some?
              && var p := FlagPos(adj[i].letter).value;
                 e <= p < |f| && f[p] == '1' && adj[i] == EdgeAt(d, c, p).value
    decreases |f| - e
  {
    if e < |f| {
      CellEdgesPositions(d, c, f, e + 1);
      if f[e] == '1' {
        var ed := EdgeAt(d, c, e).value;
        var rest := CellEdges(d, c, f, e + 1).value;
        var adj := [ed] + rest;
        CellEdgesCons(d, c, f, e);
        forall i | 0 <= i < |adj|
          ensures && FlagPos(adj[i].letter).Some?
                  && var p := FlagPos(adj[i].letter).value;
                     e <= p < |f| && f[p] == '1' && adj[i] == EdgeAt(d, c, p).value
        {
          if i == 0 {
            assert adj[i] == ed;
          } else {
            assert adj[i] == rest[i - 1];
          }
        }
      } else {
        assert CellEdges(d, c, f, e) == CellEdges(d, c, f, e + 1);
      }
    }
  }

  /** A '1' at position `e` puts its own movement in front of those built
      from the later positions. */
  lemma CellEdgesCons(d: Dims, c: Coord, f: string, e: nat)
    requires Positive(d) && e < |f| && f[e] == '1' && CellEdges(d, c, f, e).Success?
    ensures EdgeAt(d, c, e).Success? && CellEdges(d, c, f, e + 1).Success?
    ensures CellEdges(d, c, f, e).value == [EdgeAt(d, c, e).value] + CellEdges(d, c, f, e + 1).value
    ensures FlagPos(EdgeAt(d, c, e).value.letter) == Some(e)
  {
    var dir := FromCode(e).value;
    LetterRoundTrip(dir);
    CodeRoundTrip(dir);
  }

  /** The movements built from positions `e..` all stem from positions at
      or after `e`. */
  lemma CellEdgesAbove(d: Dims, c: Coord, f: string, e: nat)
    requires Positive(d) && e <= |f| && CellEdges(d, c, f, e).Success?
    ensures var adj := CellEdges(d, c, f, e).value;
            forall i :: 0 <= i < |adj| ==>
              FlagPos(adj[i].letter).Some? && e <= FlagPos(adj[i].letter).value
  {
    CellEdgesPositions(d, c, f, e);
  }

  /** Every letter of `adj` names a direction, and their flag positions
      strictly increase along the list. */
  predicate InFlagOrder(adj: seq<Edge>) {
    forall i, j :: 0 <= i < j < |adj| ==>
      FlagPos(adj[i].letter).Some? && FlagPos(adj[j].letter).Some? &&
      FlagPos(adj[i].letter).value < FlagPos(adj[j].letter).value
  }

  /** The movements of a built adjacency list appear in flag order, i.e.
      N, E, S, W, U, D. */
  lemma {:induction false} CellEdgesOrdered(d: Dims, c: Coord, f: string, e: nat)
    requires Positive(d) && e <= |f| && CellEdges(d, c, f, e).Success?
    ensures InFlagOrder(CellEdges(d, c, f, e).value)
    decreases |f| - e
  {
    if e < |f| {
      CellEdgesOrdered(d, c, f, e + 1);
      if f[e] == '1' {
        CellEdgesCons(d, c, f, e);
        CellEdgesAbove(d, c, f, e + 1);
        var ed := EdgeAt(d, c, e).value;
        var rest := CellEdges(d, c, f, e + 1).value;
        var adj := [ed] + rest;
        forall i, j | 0 <= i < j < |adj|
          ensures FlagPos(adj[i].letter).Some? && FlagPos(adj[j].letter).Some? &&
                  FlagPos(adj[i].letter).value < FlagPos(adj[j].letter).value
        {
          assert adj[j] == rest[j - 1];
          if i > 0 {
            assert adj[i] == rest[i - 1];
          }
        }
      } else {
        assert CellEdges(d, c, f, e) == CellEdges(d, c, f, e + 1);
      }
    }
  }

  /** The adjacency list of cell `c` from its whole flag string. */
  function EdgesOf(d: Dims, c: Coord, f: string): (r: Result<seq<Edge>, BuildError>)
    requires Positive(d)
    ensures r.Success? <==> FlagsOk(d, c, f)
  {
    CellEdges(d, c, f, 0)
  }

  /** Cells `i..Size(d)` of the store, each at the coordinate of its index. */
  function BuildCells(d: Dims, flags: seq<string>, i: nat): (r: Result<seq<Vertex>, BuildError>)
    requires Positive(d) && i <= Size(d) <= |flags|
    ensures r.Success? ==> |r.value| == Size(d) - i
    decreases Size(d) - i
  {
    if i == Size(d) then Success([])
    else
      var c := CoordOf(d, i);
      match EdgesOf(d, c, flags[i])
      case Failure(err) => Failure(err)
      case Success(adj) =>
        match BuildCells(d, flags, i + 1)
        case Failure(err) => Failure(err)
        case Success(rest) => Success([Vertex(c, adj)] + rest)
  }

  /** Building the store succeeds exactly when every cell's flags are acceptable. */
  lemma {:induction false} BuildCellsSucceeds(d: Dims, flags: seq<string>, i: nat)
    requires Positive(d) && i <= Size(d) <= |flags|
    ensures BuildCells(d, flags, i).Success? <==>
              forall j :: i <= j < Size(d) ==> FlagsOk(d, CoordOf(d, j), flags[j])
    decreases Size(d) - i
  {
    if i < Size(d) {
      BuildCellsSucceeds(d, flags, i + 1);
    }
  }

  /** The cell at offset `j` has the coordinate of index `i + j` and the
      adjacency list built from that index's flag string. */
  lemma {:induction false} BuildCellsContent(d: Dims, flags: seq<string>, i: nat)
    requires Positive(d) && i <= Size(d) <= |flags|
    requires BuildCells(d, flags, i).Success?
    ensures var cells := BuildCells(d, flags, i).value;
            forall j :: 0 <= j < |cells| ==>
              && cells[j].coord == CoordOf(d, i + j)
              && EdgesOf(d, CoordOf(d, i + j), flags[i + j]) == Success(cells[j].adj)
    decreases Size(d) - i
  {
    if i < Size(d) {
      var c := CoordOf(d, i);
      var adj := EdgesOf(d, c, flags[i]).value;
      var rest := BuildCells(d, flags, i + 1).value;
      var cells := BuildCells(d, flags, i).value;
      assert cells == [Vertex(c, adj)] + rest;
      BuildCellsContent(d, flags, i + 1);
      forall j | 0 <= j < |cells|
        ensures && cells[j].coord == CoordOf(d, i + j)
                && EdgesOf(d, CoordOf(d, i + j), flags[i + j]) == Success(cells[j].adj)
      {
        if j > 0 {
          assert cells[j] == rest[j - 1];
          assert i + 1 + (j - 1) == i + j;
        }
      }
    }
  }

  /** A failed build reports the error of the first cell whose flags are not acceptable. */
  lemma {:induction false} BuildCellsFirstError(d: Dims, flags: seq<string>, i: nat)
    requires Positive(d) && i <= Size(d) <= |flags|
    requires BuildCells(d, flags, i).Failure?
    ensures exists j ::
              && i <= j < Size(d) && !FlagsOk(d, CoordOf(d, j), flags[j])
              && EdgesOf(d, CoordOf(d, j), flags[j]) == Failure(BuildCells(d, flags, i).error)
              && forall k :: i <= k < j ==> FlagsOk(d, CoordOf(d, k), flags[k])
    decreases Size(d) - i
  {
    if EdgesOf(d, CoordOf(d, i), flags[i]).Success? {
      BuildCellsFirstError(d, flags, i + 1);
      var j :| && i + 1 <= j < Size(d) && !FlagsOk(d, CoordOf(d, j), flags[j])
               && EdgesOf(d, CoordOf(d, j), flags[j]) == Failure(BuildCells(d, flags, i + 1).error)
               && forall k :: i + 1 <= k < j ==> FlagsOk(d, CoordOf(d, k), flags[k]);
      assert forall k :: i <= k < j ==> FlagsOk(d, CoordOf(d, k), flags[k]);
    } else {
      assert !FlagsOk(d, CoordOf(d, i), flags[i]);
    }
  }

  /** The shape of a constructed maze: one cell per in-bounds coordinate,
      stored at that coordinate's index, every movement leading to the
      neighbour its letter names, and start and goal inside the store. */
  predicate ValidMaze(m: Maze) {
    && Positive(m.dims)
    && |m.cells| == Size(m.dims)
    && m.start < |m.cells| && m.goal < |m.cells|
    && (forall i :: 0 <= i < |m.cells| ==> m.cells[i].coord == CoordOf(m.dims, i))
    && (forall i, ed :: 0 <= i < |m.cells| && ed in m.cells[i].adj ==>
          && ed.target < |m.cells|
          && FromLetter(ed.letter).Some?
          && m.cells[ed.target].coord == Neighbour(m.cells[i].coord, FromLetter(ed.letter).value))
  }

  /** In a valid maze an edge out of cell `i` leads to the neighbour its letter names. */
  lemma EdgeFollowsLetter(m: Maze, i: nat, ed: Edge)
    requires ValidMaze(m) && i < |m.cells| && ed in m.cells[i].adj
    ensures && ed.target < |m.cells|
            && FromLetter(ed.letter).Some?
            && m.cells[ed.target].coord == Neighbour(m.cells[i].coord, FromLetter(ed.letter).value)
  {
  }

  /** The input conditions under which construction succeeds. */
  predicate WellFormed(d: Dims, start: Coord, goal: Coord, flags: seq<string>) {
    && Positive(d)
    && |flags| >= Size(d)
    && (forall j :: 0 <= j < Size(d) ==> FlagsOk(d, CoordOf(d, j), flags[j]))
    && InBounds(d, start)
    && InBounds(d, goal)
  }

  /** Builds the maze from its dimensions, start and goal, and one flag string
      per cell in level, row, column order. */
  function Build(d: Dims, start: Coord, goal: Coord, flags: seq<string>): (r: Result<Maze, BuildError>)
    ensures r.Success? <==> WellFormed(d, start, goal, flags)
    ensures r.Success? ==>
              && ValidMaze(r.value)
              && r.value.dims == d
              && r.value.cells[r.value.start].coord == start
              && r.value.cells[r.value.goal].coord == goal
    ensures r.Success? ==> forall c :: InBounds(d, c) ==> r.value.cells[Pos(d, c)].coord == c
    ensures r.Success? ==> forall j :: 0 <= j < |r.value.cells| ==>
              EdgesOf(d, r.value.cells[j].coord, flags[j]) == Success(r.value.cells[j].adj)
    ensures !Positive(d) ==> r == Failure(BadDimensions(d))
    ensures Positive(d) && |flags| < Size(d) ==> r == Failure(MissingFlags(Size(d), |flags|))
  {
    if !Positive(d) then Failure(BadDimensions(d))
    else if |flags| < Size(d) then Failure(MissingFlags(Size(d), |flags|))
    else
      BuildCellsSucceeds(d, flags, 0);
      match BuildCells(d, flags, 0)
      case Failure(err) => Failure(err)
      case Success(cells) =>
        if !InBounds(d, start) then Failure(StartOutOfBounds(start))
        else if !InBounds(d, goal) then Failure(GoalOutOfBounds(goal))
        else
          var m := Maze(d, cells, Pos(d, start), Pos(d, goal));
          BuiltMazeValid(d, flags, cells, m.start, m.goal);
          BuildCellsContent(d, flags, 0);
          CoordOfPos(d, start);
          CoordOfPos(d, goal);
          CellsAtPositions(d, flags, cells);
          Success(m)
  }

  /** Every movement of a built adjacency list leads to the in-bounds
      neighbour its letter names. */
  lemma EdgeLeadsToNeighbour(d: Dims, c: Coord, f: string, ed: Edge)
    requires Positive(d) && EdgesOf(d, c, f).Success? && ed in EdgesOf(d, c, f).value
    ensures && ed.target < Size(d)
            && FromLetter(ed.letter).Some?
            && CoordOf(d, ed.target) == Neighbour(c, FromLetter(ed.letter).value)
  {
    var adj := EdgesOf(d, c, f).value;
    var k :| 0 <= k < |adj| && adj[k] == ed;
    CellEdgesPositions(d, c, f, 0);
    assert FlagPos(adj[k].letter).Some?;
    var p := FlagPos(ed.letter).value;
    assert p < |f| && f[p] == '1' && ed == EdgeAt(d, c, p).value;
    assert FromLetter(ed.letter) == FromCode(p);
  }

  lemma BuiltMazeValid(d: Dims, flags: seq<string>, cells: seq<Vertex>, s: nat, g: nat)
    requires Positive(d) && Size(d) <= |flags|
    requires BuildCells(d, flags, 0) == Success(cells)
    requires s < |cells| && g < |cells|
    ensures ValidMaze(Maze(d, cells, s, g))
  {
    BuildCellsContent(d, flags, 0);
    forall i, ed | 0 <= i < |cells| && ed in cells[i].adj
      ensures && ed.target < |cells|
              && FromLetter(ed.letter).Some?
              && cells[ed.target].coord == Neighbour(cells[i].coord, FromLetter(ed.letter).value)
    {
      EdgeLeadsToNeighbour(d, CoordOf(d, i), flags[i], ed);
    }
  }

  lemma CellsAtPositions(d: Dims, flags: seq<string>, cells: seq<Vertex>)
    requires Positive(d) && Size(d) <= |flags|
    requires BuildCells(d, flags, 0) == Success(cells)
    ensures forall c :: InBounds(d, c) ==> cells[Pos(d, c)].coord == c
  {
    BuildCellsContent(d, flags, 0);
    forall c | InBounds(d, c)
      ensures cells[Pos(d, c)].coord == c
    {
      CoordOfPos(d, c);
    }
  }
}

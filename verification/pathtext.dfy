/**
 * Path labels.  Breadth-first search records the route to a cell as its
 * direction letters separated by single spaces ("N N E U").  `Render` builds
 * that text from the letters, `Parse` reads it back, and `Follow` applies a
 * sequence of moves to a coordinate.
 */
module PathText {
  import opened Wrappers
  import opened Grid
  import opened Directions

  predicate NoSpaces(ls: seq<char>) {
    forall i :: 0 <= i < |ls| ==> ls[i] != ' '
  }

  /** The letters joined by single spaces, with no leading or trailing space. */
  function Render(ls: seq<char>): (s: string)
    ensures |s| == if |ls| == 0 then 0 else 2 * |ls| - 1
    decreases |ls|
  {
    if |ls| == 0 then ""
    else if |ls| == 1 then [ls[0]]
    else Render(ls[..|ls| - 1]) + " " + [ls[|ls| - 1]]
  }

  /** Splits a path label back into its letters; `None` if the text is not a
      space-separated list of single characters. */
  function Parse(s: string): Option<seq<char>>
    decreases |s|
  {
    if |s| == 0 then Some([])
    else if |s| == 1 then (if s[0] != ' ' then Some([s[0]]) else None)
    else if |s| >= 3 && s[|s| - 2] == ' ' && s[|s| - 1] != ' ' then
      match Parse(s[..|s| - 2])
      case Some(ls) => Some(ls + [s[|s| - 1]])
      case None => None
    else None
  }

  /** Extending a label by one move: the first move is the bare letter, every
      later one is appended after a single space. */
  lemma RenderSnoc(ls: seq<char>, c: char)
    ensures Render(ls + [c]) == if |ls| == 0 then [c] else Render(ls) + " " + [c]
  {
    if |ls| > 0 {
      assert (ls + [c])[..|ls|] == ls;
    }
  }

  /** Reading a rendered label gives back its letters. */
  lemma {:induction false} ParseRender(ls: seq<char>)
    requires NoSpaces(ls)
    ensures Parse(Render(ls)) == Some(ls)
  {
    if |ls| >= 2 {
      var p := ls[..|ls| - 1];
      var s := Render(ls);
      assert s == Render(p) + " " + [ls[|ls| - 1]];
      assert |Render(p)| >= 1;
      assert s[..|s| - 2] == Render(p);
      assert s[|s| - 2] == ' ' && s[|s| - 1] == ls[|ls| - 1];
      ParseRender(p);
      assert p + [ls[|ls| - 1]] == ls;
    } else if |ls| == 1 {
      assert [ls[0]] == ls;
    }
  }

  /** Every text that parses is the rendering of what it parses to: the label
      format has exactly one spelling per move sequence. */
  lemma {:induction false} RenderParse(s: string)
    requires Parse(s).Some?
    ensures NoSpaces(Parse(s).value) && Render(Parse(s).value) == s
  {
    if |s| >= 2 {
      var p := s[..|s| - 2];
      RenderParse(p);
      var ls := Parse(p).value;
      RenderSnoc(ls, s[|s| - 1]);
      assert p + " " + [s[|s| - 1]] == s;
    }
  }

  /** The moves a sequence of letters names; `None` if some letter is not a direction. */
  function Moves(ls: seq<char>): (r: Option<seq<Direction>>)
    ensures r.Some? <==> forall i :: 0 <= i < |ls| ==> FromLetter(ls[i]).Some?
    ensures r.Some? ==> |r.value| == |ls| && forall i :: 0 <= i < |ls| ==> Letter(r.value[i]) == ls[i]
    decreases |ls|
  {
    if |ls| == 0 then Some([])
    else
      match Moves(ls[..|ls| - 1])
      case None => None
      case Some(ds) =>
        match FromLetter(ls[|ls| - 1])
        case None => None
        case Some(d) => Some(ds + [d])
  }

  /** Decoding one more letter appends its direction, or fails. */
  lemma MovesSnoc(ls: seq<char>, ch: char)
    ensures Moves(ls + [ch]) ==
              if Moves(ls).Some? && FromLetter(ch).Some? then Some(Moves(ls).value + [FromLetter(ch).value])
              else None
  {
    assert (ls + [ch])[..|ls|] == ls;
  }

  /** The text of a path label decoded into moves. */
  function Decode(s: string): Option<seq<Direction>> {
    match Parse(s)
    case None => None
    case Some(ls) => Moves(ls)
  }

  /** The cell reached from `c` by taking the moves `ds` in order. */
  function Follow(c: Coord, ds: seq<Direction>): Coord
    decreases |ds|
  {
    if |ds| == 0 then c else Neighbour(Follow(c, ds[..|ds| - 1]), ds[|ds| - 1])
  }

  /** Taking one more move steps to the neighbour in that direction. */
  lemma FollowSnoc(c: Coord, ds: seq<Direction>, d: Direction)
    ensures Follow(c, ds + [d]) == Neighbour(Follow(c, ds), d)
  {
    assert (ds + [d])[..|ds|] == ds;
  }
}

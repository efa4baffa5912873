# Three-dimensional maze solver — Dafny model

The program reads a maze made of `levels × rows × cols` cells, one
six-character flag string per cell, and writes the shortest sequence of
moves from a start cell to a goal cell. Position `e` of a cell's flag
string says whether the move in direction `e` is open: 0 North (row − 1),
1 East (col + 1), 2 South (row + 1), 3 West (col − 1), 4 Up (level + 1),
5 Down (level − 1). Cells live in one flat array indexed by
`level·rows·cols + row·cols + col`. A breadth-first search from the start
cell labels every reachable cell with the letters `N E S W U D` of the
moves that first reached it, separated by single spaces; the goal cell's
label is the answer (empty when the goal is the start or unreachable).

The model is split into modules that follow the program's structure:

- `Wrappers` — `Option` and `Result`.
- `Grid` — maze dimensions, coordinates, the flat index `Pos` and its
  inverse `CoordOf`.
- `Directions` — the six-valued direction enumeration, its numeric codes,
  its letters and the neighbour each move leads to.
- `Graph` — cells (`Vertex`: coordinate plus adjacency list) and edges
  (`Edge`: letter plus index of the target cell), walks, reachability and
  shortest walks.
- `PathText` — the space-separated label format, its parser and the
  decoding of a label into moves.
- `Construction` — building the cell store from the flag strings, as a
  function returning either a maze or the reason it is malformed.
- `Search` — the breadth-first search, as a method with an explicit queue.
- `Solver` — construction followed by the search, reporting the goal's
  label.

## Model

| member | source | states |
|---|---|---|
| Grid.Pos | ThreeDimensionalMazeGraph.cpp:211-214 | every in-bounds coordinate is mapped into the store of `levels·rows·cols` cells |
| Grid.CoordOf | ThreeDimensionalMazeGraph.cpp:211-214 | every index of the store decodes to an in-bounds coordinate that the indexer maps back to that index |
| Grid.CoordOfPos | ThreeDimensionalMazeGraph.cpp:211-214 | decoding the index of an in-bounds coordinate gives that coordinate back |
| Grid.PosInjective | ThreeDimensionalMazeGraph.cpp:211-214 | two in-bounds coordinates share an index exactly when they are equal, so no two cells collide |
| Grid.PosSurjective | ThreeDimensionalMazeGraph.cpp:54 | every slot of the allocated store is the index of some in-bounds coordinate |
| Grid.PosMonotone | ThreeDimensionalMazeGraph.cpp:57-61 | the level/row/column loop order is exactly increasing index order |
| Directions.Code | ThreeDimensionalMazeGraph.hpp:65-73 | each direction's numeric code is one of 0..5 |
| Directions.FromCode | ThreeDimensionalMazeGraph.hpp:65-73 | a position names a direction exactly when it is in 0..5, and the named direction has that code |
| Directions.CodeRoundTrip | ThreeDimensionalMazeGraph.hpp:65-73 | converting a direction to its code and back gives the direction |
| Directions.Letter | ThreeDimensionalMazeGraph.cpp:70-98 | each direction's label is one of `N E S W U D`, never the separator |
| Directions.FromLetter | ThreeDimensionalMazeGraph.cpp:70-98 | a character is a move label exactly when it is one of `N E S W U D`, and it is the label of the direction it names |
| Directions.LetterRoundTrip | ThreeDimensionalMazeGraph.cpp:70-98 | converting a direction to its letter and back gives the direction |
| Directions.Neighbour | ThreeDimensionalMazeGraph.cpp:69-98 | each move reaches a cell exactly one unit step away, changing only the row for north/south, only the column for east/west and only the level for up/down |
| Directions.NeighbourOpposite | ThreeDimensionalMazeGraph.cpp:69-98 | every move is undone by its opposite move (north/south, east/west, up/down) |
| Directions.NeighbourDistinct | ThreeDimensionalMazeGraph.cpp:69-98 | the six moves from a cell reach six different cells |
| PathText.Render | ThreeDimensionalMazeGraph.cpp:142-147 | a label of n moves is 2n − 1 characters long (0 for no moves); its content is pinned down by `PathText.ParseRender` and `PathText.RenderParse` |
| PathText.RenderSnoc | ThreeDimensionalMazeGraph.cpp:142-147 | extending a label by one move gives the bare letter after the start cell and `" " + letter` after any other cell |
| PathText.ParseRender | ThreeDimensionalMazeGraph.cpp:143 | splitting a rendered label at its spaces gives back exactly the letters that were joined |
| PathText.RenderParse | ThreeDimensionalMazeGraph.cpp:143 | every text the parser accepts is the rendering of the letters it returns |
| PathText.Moves | ThreeDimensionalMazeGraph.cpp:70-98 | a letter sequence decodes exactly when every letter is a move label, and then element-wise to the directions carrying those letters |
| Construction.EdgeAt | ThreeDimensionalMazeGraph.cpp:67-102 | a '1' at position p gives an edge exactly when p is a direction whose neighbour is inside the maze; the edge carries that direction's letter and the neighbour's index; otherwise the error names the bad position or the blocked direction |
| Construction.CellEdges | ThreeDimensionalMazeGraph.cpp:66-105 | a cell's edge list has one edge per '1' in its flag string, contains the edge of every such position, and succeeds exactly when every '1' is acceptable; on failure the first unacceptable '1' is reported |
| Construction.CellEdgesPositions | ThreeDimensionalMazeGraph.cpp:66-98 | every edge of a built list comes from a '1' at the flag position its letter stands for, and is exactly the edge of that position |
| Construction.CellEdgesOrdered | ThreeDimensionalMazeGraph.cpp:66-71 | the edges of a built list appear in flag order N, E, S, W, U, D, the order in which the loop appends them |
| Construction.EdgesOf | ThreeDimensionalMazeGraph.cpp:66-105 | a cell's flag string is accepted exactly when every '1' in it is an open in-bounds direction |
| Construction.BuildCells | ThreeDimensionalMazeGraph.cpp:54-61 | the store holds one vertex per remaining index |
| Construction.BuildCellsSucceeds | ThreeDimensionalMazeGraph.cpp:57-108 | the cells from index i on are built exactly when every such cell's flag string is accepted |
| Construction.BuildCellsContent | ThreeDimensionalMazeGraph.cpp:57-61 | the vertex at each index carries the coordinate of that index and the edges of that cell's flag string |
| Construction.BuildCellsFirstError | ThreeDimensionalMazeGraph.cpp:100-101 | a failed build reports the error of the first cell, in loop order, whose flags are rejected, and every earlier cell was accepted |
| Construction.EdgeLeadsToNeighbour | ThreeDimensionalMazeGraph.cpp:69-98 | every edge built for a cell points into the store at the neighbour its letter names |
| Construction.BuiltMazeValid | ThreeDimensionalMazeGraph.cpp:51-108 | a successfully built store is a valid maze: coordinates match indices and every edge leads to the neighbour its letter names |
| Construction.CellsAtPositions | ThreeDimensionalMazeGraph.cpp:57-61 | the vertex stored at the index of an in-bounds coordinate carries that coordinate |
| Construction.Build | ThreeDimensionalMazeGraph.cpp:11-31 | a maze is built exactly when the dimensions are positive, every cell has a flag string whose '1's are all open in-bounds moves, and start and goal are inside; the built maze is valid, start and goal point at their coordinates, each cell holds exactly its flags' edges; non-positive dimensions and missing flag strings are the first errors reported |
| Search.Fresh | ThreeDimensionalMazeGraph.hpp:53-55 | a vertex starts undiscovered with an empty path label |
| Search.Extend | ThreeDimensionalMazeGraph.cpp:142-147 | the label given from cell v ends with the edge's letter; leaving the start it is that letter alone, otherwise it is v's label, one space and the letter |
| Search.ExtendRenders | ThreeDimensionalMazeGraph.cpp:142-147 | extending the rendering of a walk's letters gives the rendering of the walk extended by one edge, both for the start (empty walk) and for any other cell |
| Search.Bfs | ThreeDimensionalMazeGraph.cpp:124-153 | a cell ends up discovered exactly when it is reachable from the start; each discovered cell's label renders the letters of a shortest walk to it; undiscovered cells keep the initial mark; the start is queued first, every discovered cell is queued exactly once, and label lengths never decrease along the queue |
| Search.Expand | ThreeDimensionalMazeGraph.cpp:138-151 | after the adjacency loop of the dequeued cell every neighbour is discovered no more than one step further away and already-discovered cells are untouched; the queue only grows, and the cells appended are targets of the cell's edges taken in adjacency order, each labelled with the dequeued cell's label extended by its edge's letter |
| Search.Visit | ThreeDimensionalMazeGraph.cpp:139-150 | following one edge discovers its target; a newly discovered target is queued and labelled with the dequeued cell's label extended by the edge's letter, the bare letter when leaving the start; an already discovered target leaves marks and queue unchanged |
| Search.DiscoveryWitnessed | ThreeDimensionalMazeGraph.cpp:140-147 | the label given to a newly discovered cell renders a walk to it one edge longer than the walk to the dequeued cell |
| Search.DiscoveryKeepsInvariant | ThreeDimensionalMazeGraph.cpp:139-149 | discovering and queueing one cell keeps the queue's invariant |
| Search.DequeueKeepsInvariant | ThreeDimensionalMazeGraph.cpp:132-138 | once a cell's edges have all been followed, dequeuing the next cell keeps the invariant |
| Search.SearchComplete | ThreeDimensionalMazeGraph.cpp:132-152 | when the queue empties, the discovered cells are exactly the reachable ones and each label spells a shortest walk |
| Search.WalkCovered | ThreeDimensionalMazeGraph.cpp:132-152 | when every queued cell has been expanded, any walk from the start ends at a discovered cell whose recorded walk is no longer |
| Search.LabelLengthsSorted | ThreeDimensionalMazeGraph.cpp:126-152 | cells are queued in order of non-decreasing label length |
| Solver.WalkLandsOnCoord | ThreeDimensionalMazeGraph.cpp:69-98 | the letters of any walk in a built maze are move labels, and applying those moves to the start coordinate reaches the walk's end coordinate |
| Solver.OutputText | ThreeDimensionalMazeGraph.cpp:167 | the text written is the goal's label when it was found, and otherwise the empty label every vertex starts with |
| Solver.GoalAnswer | ThreeDimensionalMazeGraph.cpp:159-167 | on a valid maze, the goal's label is found exactly when the goal is reachable; a found label spells the letters of a shortest walk (returned as a ghost witness) from start to goal, decodes to moves leading from the start coordinate to the goal coordinate, and is no longer than any walk to the goal; the answer for start = goal is the empty label |
| Solver.Solve | ThreeDimensionalMazeGraph.cpp:159-171 | the input is rejected exactly when the maze is malformed; otherwise the goal's label is found exactly when the goal is reachable, spells the letters of a shortest walk (returned as a ghost witness) from start to goal through the maze's edges, decodes to moves leading from start to goal, and no walk to the goal is shorter; the answer for start = goal is the empty label |

## Left out

- Reading `input.txt` and writing `output.txt` (ThreeDimensionalMazeGraph.cpp:13-37, 163-170): the dimensions, start, goal and flag strings are parameters, and the answer is a value; `Solver.OutputText` gives the text that would be written.
- The exception thrown when the input file cannot be opened: file handling is not modelled.
- `toString` and `printGraph` (ThreeDimensionalMazeGraph.cpp:177-206): diagnostic printing only.
- Heap allocation, `deleteGraph` and the destructor (ThreeDimensionalMazeGraph.cpp:43-46, 54, 114-119): cells are a sequence and edges hold the target's index instead of a pointer.
- The `explored` flag (ThreeDimensionalMazeGraph.hpp:54, ThreeDimensionalMazeGraph.cpp:136): it is set but never read, so it does not influence any result.
- The `PositionVertex` constructors (ThreeDimensionalMazeGraph.hpp:44-46): a `Vertex` is built directly with its coordinate, which the datatype constructor stores as given; for positive dimensions the default coordinate (0,0,0) is never observable because every slot is overwritten at ThreeDimensionalMazeGraph.cpp:61 (for the non-positive dimensions the model rejects, see `Construction.Build` below).
- 32-bit integer width: `levels·rows·cols` and `Pos` are computed on unbounded integers, so overflow of the source's `int` product for huge mazes is not modelled.
- Construction.Build: rejects inputs the source does not check, and so does not model what the source does with them:
  - a '1' whose neighbour lies outside the maze is reported as `EdgeOutOfBounds`; the source's unchecked indexer often wraps such an edge to another real cell of the store (East from the last column reaches column 0 of the next row, West from column 0 the last column of the previous row, North from row 0 the last row of the level below, South from the last row row 0 of the level above), and the index falls outside the store exactly for Up on the top level, Down on level 0, North from row 0 of level 0, South from the last row of the top level, East from the last cell and West from the first cell (0,0,0);
  - non-positive dimensions are reported as `BadDimensions`; in the source a negative cell count makes the allocation throw, a zero count leaves an empty store, and two negative dimensions with a positive product give a store of default (0,0,0) cells without edges, no flag string is read because the loops do not run, and, when start and goal index into that store, the program writes an empty answer;
  - fewer flag strings than cells is reported as `MissingFlags`; the source's stream extraction then fails and keeps the previous flag string;
  - a start or goal outside the maze is reported as `StartOutOfBounds` / `GoalOutOfBounds`; the source indexes the store without a check.
- Construction.EdgeAt: a flag character other than '1' means "no edge", as in the source (only `'1'` is tested); no error is raised for other characters.
- Search.Bfs: the contract says that each label spells some shortest walk; it does not pin down which shortest walk is chosen when several tie, which in the source follows the order of the adjacency lists.
- Solver.GoalAnswer: like `Search.Bfs`, the contract says the found label spells some shortest walk; it does not pin down which one when several tie, which in the source follows the order of the adjacency lists.
- Solver.Solve: the written label is likewise only promised to spell some shortest walk from start to goal; when several tie, the source's choice by adjacency order is not stated.
- Search.Bfs: the search runs on fresh marks; calling the search twice on the same graph, which the source never does, is not modelled.
- Flag strings and labels are sequences of characters, where the source indexes the bytes of a `std::string` (ThreeDimensionalMazeGraph.cpp:66-67); a multi-byte character in a flag string would shift the later flag positions in the source but not in the model.

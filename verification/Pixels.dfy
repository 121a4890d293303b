/** The grid and strip layouts: pixel.c:5-69 and opc_client.c:20-29, 204-229. */
module Pixels {
  import opened LinkedList

  const GRID_WIDTH: nat := 53
  const GRID_HEIGHT: nat := 24
  const NUM_PIXELS: nat := 471
  const MAX_STRIP_SIZE: nat := 64
  const NUM_STRIPS: nat := 8

  const STRIP_SIZE: seq<nat> := [63, 60, 64, 44, 60, 64, 52, 64]

  /** A `uint8_t`. */
  type u8 = x: int | 0 <= x < 256

  datatype Pixel = Pixel(r: u8, g: u8, b: u8)

  /** pixel_info_t without its geolocation, which this code does not read. */
  datatype PixelInfo = PixelInfo(x: int, y: int, channel: int, num: int)

  // ----- grid_new: one block of cells and a pointer to the start of each column

  class Grid {
    const cells: array<Pixel>
    const starts: array<nat>
    const rows: nat

    ghost predicate Valid()
      reads starts
    {
      && cells.Length == starts.Length * rows
      && forall c :: 0 <= c < starts.Length ==> starts[c] == c * rows
    }

    /** The colour at column `x`, row `y`. */
    ghost function Cell(x: nat, y: nat): Pixel
      requires Valid() && x < starts.Length && y < rows
      reads starts, cells
    {
      CellInside(x, y, starts.Length, rows);
      cells[x * rows + y]
    }

    /** grid_new. The column counter is a uint8_t, so at most 255 columns are ever asked for. */
    constructor (cols: nat, rows: nat)
      requires 0 < cols < 256
      ensures Valid() && starts.Length == cols && this.rows == rows && fresh(cells) && fresh(starts)
    {
      this.rows := rows;
      cells := new Pixel[cols * rows];
      starts := new nat[cols];
      new;
      starts[0] := 0;
      for i := 1 to cols
        invariant forall c :: 0 <= c < i ==> starts[c] == c * rows
      {
        starts[i] := starts[0] + i * rows;
      }
    }

    /** matrix[x][y] */
    method Get(x: nat, y: nat) returns (p: Pixel)
      requires Valid() && x < starts.Length && y < rows
      ensures p == Cell(x, y)
    {
      CellInside(x, y, starts.Length, rows);
      p := cells[starts[x] + y];
    }

    /** matrix[x][y] = p: no other cell changes. */
    method Set(x: nat, y: nat, p: Pixel)
      requires Valid() && x < starts.Length && y < rows
      modifies cells
      ensures Valid() && Cell(x, y) == p
      ensures forall c: nat, r: nat ::
                c < starts.Length && r < rows && (c != x || r != y) ==> Cell(c, r) == old(Cell(c, r))
    {
      CellInside(x, y, starts.Length, rows);
      cells[starts[x] + y] := p;
      forall c: nat, r: nat | c < starts.Length && r < rows && (c != x || r != y)
        ensures Cell(c, r) == old(Cell(c, r))
      {
        CellsDisjoint(c, r, x, y, rows);
      }
    }
  }

  lemma CellInside(x: nat, y: nat, cols: nat, rows: nat)
    requires x < cols && y < rows
    ensures x * rows + y < cols * rows
  {
    assert (x + 1) * rows <= cols * rows;
  }

  /** The flat layout gives every pair its own cell. */
  lemma CellsDisjoint(x: nat, y: nat, x': nat, y': nat, rows: nat)
    requires y < rows && y' < rows && (x != x' || y != y')
    ensures x * rows + y != x' * rows + y'
  {
    if x < x' {
      assert (x + 1) * rows <= x' * rows;
    } else if x' < x {
      assert (x' + 1) * rows <= x * rows;
    }
  }

  // ----- get_pos

  /** The position of the last element with a property, or -1. */
  function LastMatch<T>(s: seq<T>, wanted: T -> bool): (pos: int)
    ensures -1 <= pos < |s|
    ensures pos >= 0 ==> wanted(s[pos])
    ensures forall i :: pos < i < |s| ==> !wanted(s[i])
  {
    if s == [] then -1
    else if wanted(s[|s| - 1]) then |s| - 1
    else LastMatch(s[..|s| - 1], wanted)
  }

  lemma LastMatchStep<T>(s: seq<T>, x: T, wanted: T -> bool)
    ensures LastMatch(s + [x], wanted) == if wanted(x) then |s| else LastMatch(s, wanted)
  {
    assert (s + [x])[..|s|] == s;
  }

  /** The last LED at a grid position, or -1. */
  function LastAt(infos: seq<PixelInfo>, x: int, y: int): (pos: int)
    ensures -1 <= pos < |infos|
    ensures pos >= 0 ==> infos[pos].x == x && infos[pos].y == y
    ensures forall i :: pos < i < |infos| ==> infos[i].x != x || infos[i].y != y
  {
    LastMatch(infos, (pi: PixelInfo) => pi.x == x && pi.y == y)
  }

  /** search_pair_t: the position found and the count of LEDs seen. */
  datatype Search = Search(ret: int, cnt: nat)

  /** get_pos_enum. */
  function GetPosEnum(x: int, y: int): (PixelInfo, Search) -> Search {
    (pi: PixelInfo, sp: Search) =>
      Search(if pi.x == x && pi.y == y then sp.cnt else sp.ret, sp.cnt + 1)
  }

  lemma {:induction false} FoldFindsLast(seen: seq<PixelInfo>, infos: seq<PixelInfo>, x: int, y: int)
    ensures Fold(GetPosEnum(x, y), infos, Search(LastAt(seen, x, y), |seen|))
         == Search(LastAt(seen + infos, x, y), |seen + infos|)
    decreases |infos|
  {
    if infos == [] {
      assert seen + infos == seen;
    } else {
      var more := seen + [infos[0]];
      LastMatchStep(seen, infos[0], (pi: PixelInfo) => pi.x == x && pi.y == y);
      FoldFindsLast(more, infos[1..], x, y);
      assert more + infos[1..] == seen + infos;
    }
  }

  /** get_pos. */
  method GetPos(x: int, y: int, info: List<PixelInfo>) returns (pos: int)
    requires info.Valid()
    ensures pos == LastAt(info.Values(), x, y)
  {
    var sp := info.Enum(GetPosEnum(x, y), Search(-1, 0));
    FoldFindsLast([], info.Values(), x, y);
    assert [] + info.Values() == info.Values();
    pos := sp.ret;
  }

  // ----- read_grid_to_list

  predicate InGrid(p: PixelInfo) {
    0 <= p.x < GRID_WIDTH && 0 <= p.y < GRID_HEIGHT
  }

  /** The LED is the one its grid position is read into. */
  predicate Reads(infos: seq<PixelInfo>, p: nat)
    requires p < |infos|
  {
    InGrid(infos[p]) && LastAt(infos, infos[p].x, infos[p].y) == p
  }

  /** Column by column, `x, y` comes after the LED's position. */
  predicate Before(p: PixelInfo, x: nat, y: nat) {
    p.x < x || (p.x == x && p.y < y)
  }

  /** What LED `p` holds once the cells before `x, y` of the grid have been read. */
  ghost function Reading(infos: seq<PixelInfo>, cell: (int, int) -> Pixel, was: seq<Pixel>,
                         p: nat, x: nat, y: nat): Pixel
    requires p < |infos| && |infos| <= |was|
  {
    if Reads(infos, p) && Before(infos[p], x, y) then cell(infos[p].x, infos[p].y) else was[p]
  }

  /** Reading one more cell concerns the LED get_pos finds, and no other. */
  lemma ReadingStep(infos: seq<PixelInfo>, cell: (int, int) -> Pixel, was: seq<Pixel>, p: nat, x: nat, y: nat)
    requires p < |infos| && |infos| <= |was| && x < GRID_WIDTH && y < GRID_HEIGHT
    ensures Reading(infos, cell, was, p, x, y + 1)
         == if LastAt(infos, x, y) == p then cell(x, y) else Reading(infos, cell, was, p, x, y)
  {
    hide LastAt;
  }

  lemma ReadingColumn(infos: seq<PixelInfo>, cell: (int, int) -> Pixel, was: seq<Pixel>, p: nat, x: nat)
    requires p < |infos| && |infos| <= |was|
    ensures Reading(infos, cell, was, p, x, GRID_HEIGHT) == Reading(infos, cell, was, p, x + 1, 0)
    ensures Reading(infos, cell, was, p, 0, 0) == was[p]
    ensures Reading(infos, cell, was, p, GRID_WIDTH, 0)
         == if Reads(infos, p) then cell(infos[p].x, infos[p].y) else was[p]
  {
    hide LastAt;
  }

  /** The colours of the grid, read once. */
  ghost function Cells(grid: Grid): (cell: (int, int) -> Pixel)
    requires grid.Valid() && grid.starts.Length == GRID_WIDTH && grid.rows == GRID_HEIGHT
    reads grid.starts, grid.cells
    ensures forall x: nat, y: nat :: x < GRID_WIDTH && y < GRID_HEIGHT ==> cell(x, y) == grid.Cell(x, y)
  {
    var flat := grid.cells[..];
    (x: int, y: int) =>
      if 0 <= x < GRID_WIDTH && 0 <= y < GRID_HEIGHT then flat[x * GRID_HEIGHT + y] else Pixel(0, 0, 0)
  }

  /** read_grid_to_list. */
  method ReadGridToList(pixelList: array<Pixel>, grid: Grid, info: List<PixelInfo>)
    requires info.Valid() && |info.Values()| <= pixelList.Length
    requires grid.Valid() && grid.starts.Length == GRID_WIDTH && grid.rows == GRID_HEIGHT
    requires pixelList != grid.cells
    modifies pixelList
    ensures forall p: nat :: p < |info.Values()| ==>
              pixelList[p] == if Reads(info.Values(), p) then Cells(grid)(info.Values()[p].x, info.Values()[p].y)
                              else old(pixelList[p])
    ensures forall p :: |info.Values()| <= p < pixelList.Length ==> pixelList[p] == old(pixelList[p])
  {
    hide Reading, Reads, LastAt;
    ghost var infos, cell, was := info.Values(), Cells(grid), pixelList[..];
    ghost var n := |infos|;
    forall p: nat | p < n ensures Reading(infos, cell, was, p, 0, 0) == was[p] {
      ReadingColumn(infos, cell, was, p, 0);
    }
    for x := 0 to GRID_WIDTH
      invariant forall p: nat :: p < n ==> pixelList[p] == Reading(infos, cell, was, p, x, 0)
      invariant forall p :: n <= p < pixelList.Length ==> pixelList[p] == was[p]
    {
      for y := 0 to GRID_HEIGHT
        invariant forall p: nat :: p < n ==> pixelList[p] == Reading(infos, cell, was, p, x, y)
        invariant forall p :: n <= p < pixelList.Length ==> pixelList[p] == was[p]
      {
        var pos := GetPos(x, y, info);
        ghost var before := pixelList[..];
        if pos >= 0 {
          var colour := grid.Get(x, y);
          pixelList[pos] := colour;
        }
        forall p: nat | p < n ensures pixelList[p] == Reading(infos, cell, was, p, x, y + 1) {
          ReadingStep(infos, cell, was, p, x, y);
          assert before[p] == Reading(infos, cell, was, p, x, y);
        }
      }
      forall p: nat | p < n
        ensures Reading(infos, cell, was, p, x, GRID_HEIGHT) == Reading(infos, cell, was, p, x + 1, 0)
      {
        ReadingColumn(infos, cell, was, p, x);
      }
    }
    forall p: nat | p < n
      ensures pixelList[p] == if Reads(infos, p) then cell(infos[p].x, infos[p].y) else was[p]
    {
      ReadingColumn(infos, cell, was, p, 0);
    }
  }

  /** With distinct positions inside the grid every LED gets the colour of its own cell. */
  lemma DistinctAllRead(infos: seq<PixelInfo>, p: nat)
    requires p < |infos| && InGrid(infos[p])
    requires forall i, j :: 0 <= i < j < |infos| ==> infos[i].x != infos[j].x || infos[i].y != infos[j].y
    ensures Reads(infos, p)
  {
    var q := LastAt(infos, infos[p].x, infos[p].y);
    assert q >= p;
  }
}

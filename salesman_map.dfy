/**
 * SalesmanMap: a height x width grid of site ids, -1 for an empty cell, with
 * the salesman starting on the cell of site 0.
 *
 * The ghost field `Position` lists where each site id was placed; `Valid`
 * ties it to the grid so that the non-empty cells are exactly one cell per
 * id. `random.nextInt` draws of `generate` are supplied as a sequence of
 * cells; the square root of `getDistance` is a parameter.
 */
module SalesmanMaps {
  import opened Wrappers
  import Permutations

  datatype Point = Point(row: int, col: int)

  datatype MapError = EmptyDimension | DrawsExhausted

  /** The cell id is looked up at: its placed position, or (-1, -1) when the scan never finds it. */
  function LocateIn(positions: seq<Point>, id: int): Point {
    if 0 <= id < |positions| then positions[id] else Point(-1, -1)
  }

  /** (destCol - startCol)^2 + (destRow - startRow)^2, the quantity getDistance takes the root of. */
  function SquaredDistance(a: Point, b: Point): int {
    (b.col - a.col) * (b.col - a.col) + (b.row - a.row) * (b.row - a.row)
  }

  /** The squared distance is symmetric, never negative, and zero exactly between equal points. */
  lemma SquaredDistanceIsMetricLike(a: Point, b: Point)
    ensures SquaredDistance(a, b) == SquaredDistance(b, a)
    ensures SquaredDistance(a, b) >= 0
    ensures SquaredDistance(a, b) == 0 <==> a == b
  {
    var dc, dr := b.col - a.col, b.row - a.row;
    assert dc * dc >= 0 && dr * dr >= 0;
    if dc != 0 {
      assert dc * dc > 0;
    }
    if dr != 0 {
      assert dr * dr > 0;
    }
  }

  /** (char)(val + 97) for a Java byte: negative codes wrap modulo 2^16. */
  function ConvertByteToChar(val: int): (c: char)
    requires -128 <= val <= 127
    ensures 0 <= val < 26 ==> 'a' as int <= c as int <= 'z' as int
    ensures c as int == (val + 97) % 65536
  {
    ((val + 97) % 65536) as char
  }

  /** Java's (byte) cast: keep the low 8 bits, read as two's complement. */
  function ToByte(i: int): (b: int)
    ensures -128 <= b <= 127
    ensures (b - i) % 256 == 0
  {
    (i + 128) % 256 - 128
  }

  /** The int overload: cast to byte, then convert. An int already in byte range converts as that byte. */
  function ConvertIntToChar(i: int): (c: char)
    ensures -128 <= i <= 127 ==> c == ConvertByteToChar(i)
  {
    ConvertByteToChar(ToByte(i))
  }

  /** The int overload sees only the low 8 bits: ints 256 apart give the same character, so site 26 + 256 is site 26's character again. */
  lemma ConvertIntToCharLowByte(i: int, j: int)
    requires (i - j) % 256 == 0
    ensures ConvertIntToChar(i) == ConvertIntToChar(j)
  {
    assert ToByte(i) == ToByte(j) by {
      var q := (i - j) / 256;
      assert i == j + 256 * q;
      assert (i + 128) % 256 == (j + 128) % 256;
    }
  }

  /** Distinct byte values give distinct letters; site 0 is 'a'. */
  lemma ConvertByteToCharInjective(a: int, b: int)
    requires -128 <= a <= 127 && -128 <= b <= 127
    ensures ConvertByteToChar(a) == ConvertByteToChar(b) <==> a == b
    ensures ConvertByteToChar(0) == 'a'
  {
  }

  predicate Distinct(ps: seq<Point>) {
    forall i, j :: 0 <= i < j < |ps| ==> ps[i] != ps[j]
  }

  predicate InBox(ps: seq<Point>, height: int, width: int) {
    forall i :: 0 <= i < |ps| ==> 0 <= ps[i].row < height && 0 <= ps[i].col < width
  }

  /**
   * The cells the ADD_SITES loop fills, in id order, given the draws still to
   * come and the cells placed so far; a draw that hits a placed cell is
   * skipped and the same id is tried again. None when the draws run out.
   */
  function Placement(n: nat, draws: seq<Point>, placed: seq<Point>): (r: Option<seq<Point>>)
    requires |placed| <= n
    ensures r.Some? ==> |r.value| == n && r.value[..|placed|] == placed
    ensures r.Some? && Distinct(placed) ==> Distinct(r.value)
    ensures r.Some? ==> forall i :: |placed| <= i < n ==> r.value[i] in draws
    decreases |draws|
  {
    if |placed| == n then Some(placed)
    else if draws == [] then None
    else if draws[0] in placed then Placement(n, draws[1..], placed)
    else
      var r := Placement(n, draws[1..], placed + [draws[0]]);
      assert r.Some? ==> r.value[|placed|] == r.value[..|placed| + 1][|placed|];
      r
  }

  /** Cell number in row-major order. */
  function Code(p: Point, width: int): int {
    p.row * width + p.col
  }

  lemma {:induction false} DistinctCodes(ps: seq<Point>, height: nat, width: nat)
    requires Distinct(ps) && InBox(ps, height, width)
    ensures |ps| <= height * width
  {
    var codes := set i | 0 <= i < |ps| :: Code(ps[i], width);
    forall c | c in codes ensures 0 <= c < height * width {
      var i :| 0 <= i < |ps| && c == Code(ps[i], width);
      CodeInRange(ps[i], height, width);
    }
    Permutations.BoundedSetSize(codes, height * width);
    CodesCount(ps, height, width, |ps|);
  }

  lemma CodeInRange(p: Point, height: nat, width: nat)
    requires 0 <= p.row < height && 0 <= p.col < width
    ensures 0 <= Code(p, width) < height * width
  {
    assert p.row * width <= (height - 1) * width;
  }

  lemma {:induction false} MulGap(a: int, b: int, w: nat)
    requires a < b
    ensures a * w + w <= b * w
    decreases b - a
  {
    assert (a + 1) * w == a * w + w;
    if a + 1 < b {
      MulGap(a + 1, b, w);
    }
  }

  lemma CodeInjective(p: Point, q: Point, width: nat)
    requires 0 <= p.col < width && 0 <= q.col < width && p != q
    ensures Code(p, width) != Code(q, width)
  {
    if p.row < q.row {
      MulGap(p.row, q.row, width);
    } else if q.row < p.row {
      MulGap(q.row, p.row, width);
    }
  }

  lemma {:induction false} CodesCount(ps: seq<Point>, height: nat, width: nat, k: nat)
    requires Distinct(ps) && InBox(ps, height, width) && k <= |ps|
    ensures |set i | 0 <= i < k :: Code(ps[i], width)| == k
  {
    if k > 0 {
      CodesCount(ps, height, width, k - 1);
      var before := set i | 0 <= i < k - 1 :: Code(ps[i], width);
      var after := set i | 0 <= i < k :: Code(ps[i], width);
      assert after == before + {Code(ps[k - 1], width)};
      forall i | 0 <= i < k - 1 ensures Code(ps[i], width) != Code(ps[k - 1], width) {
        CodeInjective(ps[i], ps[k - 1], width);
      }
    }
  }

  /** The ADD_SITES loop can only finish when the grid has a cell for every site. */
  lemma PlacementNeedsRoom(n: nat, height: nat, width: nat, draws: seq<Point>)
    requires InBox(draws, height, width)
    requires Placement(n, draws, []).Some?
    ensures n <= height * width
  {
    var ps := Placement(n, draws, []).value;
    assert InBox(ps, height, width) by {
      forall i | 0 <= i < |ps| ensures 0 <= ps[i].row < height && 0 <= ps[i].col < width {
        assert ps[i] in draws;
      }
    }
    DistinctCodes(ps, height, width);
  }

  class SalesmanMap {
    const height: nat
    const width: nat
    const grid: array2<int>
    var salesmanCol: int
    var salesmanRow: int
    var lastSite: int
    /** Where each site id sits: Position[id] is the cell holding id. */
    ghost var Position: seq<Point>

    /** The grid holds the ids of `ps` at their positions and -1 everywhere else. */
    ghost predicate Holds(ps: seq<Point>)
      reads this, grid
    {
      grid.Length0 == height && grid.Length1 == width &&
      InBox(ps, height, width) &&
      (forall v :: 0 <= v < |ps| ==> grid[ps[v].row, ps[v].col] == v) &&
      (forall r, c :: 0 <= r < height && 0 <= c < width && grid[r, c] != -1 ==>
        0 <= grid[r, c] < |ps| && ps[grid[r, c]] == Point(r, c))
    }

    /** Sites 0..lastSite each sit on exactly one cell; the salesman stands on site 0. */
    ghost predicate Valid()
      reads this, grid
    {
      Holds(Position) && lastSite == |Position| - 1 && |Position| <= 127 &&
      (if |Position| > 0 then Point(salesmanRow, salesmanCol) == Position[0]
       else salesmanRow == 0 && salesmanCol == 0)
    }

    /** The private constructor: a grid with every cell empty. */
    constructor (height: nat, width: nat)
      ensures this.height == height && this.width == width
      ensures fresh(grid) && grid.Length0 == height && grid.Length1 == width
      ensures forall r, c :: 0 <= r < height && 0 <= c < width ==> grid[r, c] == -1
      ensures salesmanCol == 0 && salesmanRow == 0 && lastSite == -1 && Position == []
      ensures Valid()
    {
      this.height := height;
      this.width := width;
      var cells := new int[height, width];
      for row := 0 to height
        invariant forall r, c :: 0 <= r < row && 0 <= c < width ==> cells[r, c] == -1
      {
        for col := 0 to width
          invariant forall r, c :: 0 <= r < row && 0 <= c < width ==> cells[r, c] == -1
          invariant forall c :: 0 <= c < col ==> cells[row, c] == -1
        {
          cells[row, col] := -1;
        }
      }
      grid := cells;
      salesmanCol := 0;
      salesmanRow := 0;
      lastSite := -1;
      Position := [];
    }

    /**
     * SalesmanMap.generate with its draws supplied: place ids 0..n-1 on
     * distinct cells, retrying an id whose drawn cell is taken.
     */
    static method Generate(numPlacesToVisit: int, height: nat, width: nat, draws: seq<Point>)
        returns (r: Result<SalesmanMap, MapError>)
      requires 0 <= numPlacesToVisit <= 127
      requires InBox(draws, height, width)
      ensures numPlacesToVisit > 0 && (height == 0 || width == 0) ==> r == Err(EmptyDimension)
      ensures !(numPlacesToVisit > 0 && (height == 0 || width == 0)) ==>
        match Placement(numPlacesToVisit, draws, [])
        case None => r == Err(DrawsExhausted)
        case Some(ps) =>
          r.Ok? && fresh(r.value) && fresh(r.value.grid) && r.value.Valid() &&
          r.value.height == height && r.value.width == width &&
          r.value.Position == ps && r.value.lastSite == numPlacesToVisit - 1
    {
      var newMap := new SalesmanMap(height, width);
      if numPlacesToVisit > 0 && (height == 0 || width == 0) {
        return Err(EmptyDimension);
      }
      var salesmanCol, salesmanRow := 0, 0;
      ghost var placed: seq<Point> := [];
      var i := 0;
      var k := 0;
      while i < numPlacesToVisit
        invariant 0 <= k <= |draws| && i == |placed| <= numPlacesToVisit
        invariant newMap.Holds(placed) && Distinct(placed)
        invariant i > 0 ==> Point(salesmanRow, salesmanCol) == placed[0]
        invariant i == 0 ==> salesmanRow == 0 && salesmanCol == 0
        invariant Placement(numPlacesToVisit, draws[k..], placed) == Placement(numPlacesToVisit, draws, [])
        decreases |draws| - k
      {
        if k == |draws| {
          return Err(DrawsExhausted);
        }
        var col, row := draws[k].col, draws[k].row;
        assert draws[k..][1..] == draws[k + 1..];
        k := k + 1;
        if newMap.grid[row, col] != -1 {
          assert Point(row, col) in placed;
          continue;
        }
        assert Point(row, col) !in placed;
        if i == 0 {
          salesmanCol := col;
          salesmanRow := row;
        }
        newMap.grid[row, col] := i;
        placed := placed + [Point(row, col)];
        i := i + 1;
      }
      newMap.lastSite := numPlacesToVisit - 1;
      newMap.salesmanCol := salesmanCol;
      newMap.salesmanRow := salesmanRow;
      newMap.Position := placed;
      return Ok(newMap);
    }

    function GetLastSite(): (last: int)
      reads this, grid
      ensures Valid() ==> last + 1 == |Position| && -1 <= last <= 126
    {
      lastSite
    }

    /** The cell the salesman stands on, and site 0's cell, coincide. */
    lemma SalesmanOnFirstSite()
      requires Valid() && lastSite >= 0
      ensures grid[salesmanRow, salesmanCol] == 0
    {
    }

    /** Cell (r, c) has been visited by a row-major scan stopped before (row, col). */
    static predicate Before(p: Point, row: int, col: int) {
      p.row < row || (p.row == row && p.col < col)
    }

    /** What the FIND_SITES scan has recorded for id once it has passed every cell before (row, col). */
    ghost function Seen(id: int, row: int, col: int): Point
      reads this
    {
      var p := LocateIn(Position, id);
      if 0 <= id < |Position| && Before(p, row, col) then p else Point(-1, -1)
    }

    /**
     * getDistance: scan the grid for both ids (stopping as soon as both are
     * seen) and take the root of the squared coordinate differences.
     */
    method GetDistance(start: int, dest: int, sqrt: int -> real) returns (distance: real)
      requires Valid() && start != -1 && dest != -1
      ensures distance == sqrt(SquaredDistance(LocateIn(Position, start), LocateIn(Position, dest)))
    {
      var startCol, startRow := -1, -1;
      var destCol, destRow := -1, -1;
      label findSites:
      for row := 0 to height
        invariant Point(startRow, startCol) == Seen(start, row, 0)
        invariant Point(destRow, destCol) == Seen(dest, row, 0)
      {
        for col := 0 to width
          invariant Point(startRow, startCol) == Seen(start, row, col)
          invariant Point(destRow, destCol) == Seen(dest, row, col)
        {
          if grid[row, col] == start {
            startRow := row;
            startCol := col;
            if startCol != -1 && destCol != -1 {
              break findSites;
            }
          }
          if grid[row, col] == dest {
            destRow := row;
            destCol := col;
            if startCol != -1 && destCol != -1 {
              break findSites;
            }
          }
        }
      }
      var squared := (destCol - startCol) * (destCol - startCol) + (destRow - startRow) * (destRow - startRow);
      distance := sqrt(squared);
    }

    /** The character toString shows for cell (r, c). */
    ghost function CellChar(r: int, c: int, showSalesman: bool): char
      reads this, grid
      requires 0 <= r < grid.Length0 && 0 <= c < grid.Length1
    {
      if salesmanCol == c && salesmanRow == r && showSalesman then '^'
      else if grid[r, c] == -1 then '.'
      else if -128 <= grid[r, c] <= 127 then ConvertByteToChar(grid[r, c])
      else '?'
    }

    /** Columns 0..c-1 of row r. */
    ghost function RenderRow(r: int, c: nat, showSalesman: bool): string
      reads this, grid
      requires 0 <= r < grid.Length0 && c <= grid.Length1
    {
      if c == 0 then "" else RenderRow(r, c - 1, showSalesman) + [CellChar(r, c - 1, showSalesman)]
    }

    /** Rows 0..r-1, each followed by a newline. */
    ghost function Render(r: nat, showSalesman: bool): string
      reads this, grid
      requires r <= grid.Length0
    {
      if r == 0 then "" else Render(r - 1, showSalesman) + RenderRow(r - 1, grid.Length1, showSalesman) + "\n"
    }

    /** toString(showSalesman): row by row, one character per cell and a newline per row. */
    method ToString(showSalesman: bool) returns (s: string)
      requires Valid()
      ensures s == Render(height, showSalesman)
    {
      s := "";
      for row := 0 to height
        invariant s == Render(row, showSalesman)
      {
        s := AppendRow(s, row, showSalesman);
        s := s + "\n";
      }
    }

    /** The inner loop of toString: appends the cells of one row to the buffer. */
    method AppendRow(buffer: string, row: int, showSalesman: bool) returns (s: string)
      requires Valid() && 0 <= row < height
      ensures s == buffer + RenderRow(row, width, showSalesman)
    {
      s := buffer;
      for col := 0 to width
        invariant s == buffer + RenderRow(row, col, showSalesman)
      {
        var val := grid[row, col];
        if val != -1 {
          if salesmanCol == col && salesmanRow == row && showSalesman {
            s := s + "^";
          } else {
            assert 0 <= val < |Position|;
            s := s + [ConvertByteToChar(val)];
          }
        } else {
          if salesmanCol == col && salesmanRow == row && showSalesman {
            s := s + "^";
          } else {
            s := s + ".";
          }
        }
      }
    }

    lemma {:induction false} RenderRowLayout(r: int, c: nat, showSalesman: bool)
      requires 0 <= r < grid.Length0 && c <= grid.Length1
      ensures |RenderRow(r, c, showSalesman)| == c
      ensures forall j :: 0 <= j < c ==> RenderRow(r, c, showSalesman)[j] == CellChar(r, j, showSalesman)
    {
      if c > 0 {
        RenderRowLayout(r, c - 1, showSalesman);
      }
    }

    /** Index of column c of row r in the rendering: each row takes `width + 1` characters. */
    static function Offset(r: int, c: int, width: int): int {
      r * (width + 1) + c
    }

    lemma {:induction false} RenderLength(rows: nat, showSalesman: bool)
      requires rows <= grid.Length0
      ensures |Render(rows, showSalesman)| == rows * (grid.Length1 + 1)
    {
      if rows > 0 {
        RenderLength(rows - 1, showSalesman);
        RenderRowLayout(rows - 1, grid.Length1, showSalesman);
        assert rows * (grid.Length1 + 1) == (rows - 1) * (grid.Length1 + 1) + (grid.Length1 + 1);
      }
    }

    lemma {:induction false} RenderAt(rows: nat, r: int, c: int, showSalesman: bool)
      requires rows <= grid.Length0 && 0 <= r < rows && 0 <= c <= grid.Length1
      ensures 0 <= Offset(r, c, grid.Length1) < |Render(rows, showSalesman)|
      ensures Render(rows, showSalesman)[Offset(r, c, grid.Length1)] ==
        if c < grid.Length1 then CellChar(r, c, showSalesman) else '\n'
    {
      var w := grid.Length1;
      var prefix := Render(rows - 1, showSalesman);
      var line := RenderRow(rows - 1, w, showSalesman);
      RenderLength(rows - 1, showSalesman);
      RenderRowLayout(rows - 1, w, showSalesman);
      assert Render(rows, showSalesman) == prefix + line + "\n";
      if r < rows - 1 {
        RenderAt(rows - 1, r, c, showSalesman);
      } else {
        assert Offset(r, c, w) == |prefix| + c;
      }
    }

    /**
     * The rendering has `width + 1` characters per row: cell (r, c) at
     * Offset(r, c), and a newline closing each row at Offset(r, width).
     */
    lemma RenderLayout(rows: nat, showSalesman: bool)
      requires rows <= grid.Length0
      ensures |Render(rows, showSalesman)| == rows * (grid.Length1 + 1)
      ensures forall r, c :: 0 <= r < rows && 0 <= c <= grid.Length1 ==>
        0 <= Offset(r, c, grid.Length1) < |Render(rows, showSalesman)| &&
        Render(rows, showSalesman)[Offset(r, c, grid.Length1)] ==
          if c < grid.Length1 then CellChar(r, c, showSalesman) else '\n'
    {
      RenderLength(rows, showSalesman);
      forall r, c | 0 <= r < rows && 0 <= c <= grid.Length1
        ensures 0 <= Offset(r, c, grid.Length1) < |Render(rows, showSalesman)|
        ensures Render(rows, showSalesman)[Offset(r, c, grid.Length1)] ==
          if c < grid.Length1 then CellChar(r, c, showSalesman) else '\n'
      {
        RenderAt(rows, r, c, showSalesman);
      }
    }

    /** Without the salesman marker, an empty cell shows '.' and a site shows its letter. */
    lemma RenderedCell(r: int, c: int)
      requires Valid() && 0 <= r < height && 0 <= c < width
      ensures grid[r, c] == -1 ==> CellChar(r, c, false) == '.'
      ensures grid[r, c] != -1 ==> CellChar(r, c, false) == ConvertByteToChar(grid[r, c])
      ensures grid[r, c] != -1 ==> CellChar(r, c, false) as int == grid[r, c] + 97
    {
    }
  }
}

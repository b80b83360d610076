/**
 The character grid a survey is drawn on: three columns a cell, one column or row
 between neighbours, and in it the connectors of the edges.

 A connector stands half way between the middles of the two glyphs, and its stroke
 is the slope of the edge.
 */
module MapGrid {
  import opened MapSurvey

  /** The smallest box around the places. */
  datatype Box = Box(minX: int, maxX: int, minY: int, maxY: int) {
    predicate Holds(c: Coord) {
      minX <= c.x <= maxX && minY <= c.y <= maxY
    }

    function Columns(): int {
      (maxX - minX + 1) * 4 - 1
    }

    function Rows(): int {
      (maxY - minY + 1) * 2 - 1
    }

    /** Where the middle of a cell's glyph stands. */
    function MidColumn(c: Coord): int {
      (c.x - minX) * 4 + 1
    }

    function MidRow(c: Coord): int {
      (c.y - minY) * 2
    }

    predicate Inside(row: int, col: int) {
      0 <= row < Rows() && 0 <= col < Columns()
    }

    /** The place whose glyph covers (row, col), if one does. */
    function PlaceAt(row: nat, col: nat): Coord {
      Coord(minX + col / 4, minY + row / 2)
    }
  }

  predicate Beside(e: Edge) {
    e.from != e.to && -1 <= e.to.x - e.from.x <= 1 && -1 <= e.to.y - e.from.y <= 1
  }

  predicate OnGlyph(cells: map<Coord, Cell>, box: Box, row: nat, col: nat) {
    row % 2 == 0 && col % 4 < 3 && box.PlaceAt(row, col) in cells
  }

  /** Half way between the middles of the two glyphs. */
  predicate IsSpot(box: Box, e: Edge, row: int, col: int) {
    && 2 * row == box.MidRow(e.from) + box.MidRow(e.to)
    && 2 * col == box.MidColumn(e.from) + box.MidColumn(e.to)
  }

  function Stroke(e: Edge): char {
    if e.to.y == e.from.y then '-'
    else if e.to.x == e.from.x then '|'
    else if e.to.x - e.from.x == e.to.y - e.from.y then '\\'
    else '/'
  }

  /** What the edges leave at (row, col): the last edge between neighbours with its spot there wins. */
  function Ink(cells: map<Coord, Cell>, box: Box, edges: seq<Edge>, row: int, col: int): char {
    if edges == [] then ' '
    else
      var e := edges[|edges| - 1];
      if Beside(e) && e.to in cells && IsSpot(box, e, row, col) then Stroke(e)
      else Ink(cells, box, edges[..|edges| - 1], row, col)
  }

  /** No connector stands on a glyph. */
  lemma SpotIsNoGlyph(cells: map<Coord, Cell>, box: Box, e: Edge, row: nat, col: nat)
    requires Beside(e) && IsSpot(box, e, row, col)
    ensures !OnGlyph(cells, box, row, col)
  {
    var dx, dy := e.to.x - e.from.x, e.to.y - e.from.y;
    assert row == (e.from.y - box.minY) * 2 + dy;
    assert col == (e.from.x - box.minX) * 4 + 1 + 2 * dx;
  }

  /** The connector of two neighbours in the box is in the grid. */
  lemma SpotIsInside(box: Box, e: Edge, row: int, col: int)
    requires Beside(e) && IsSpot(box, e, row, col) && box.Holds(e.from) && box.Holds(e.to)
    ensures box.Inside(row, col)
  {
  }

  function Reverse(e: Edge): Edge {
    Edge(e.to, e.from)
  }

  /** An exit and the exit back have one connector: the same spot, the same stroke. */
  lemma SpotOfReverse(box: Box, e: Edge, row: int, col: int)
    requires Beside(e)
    ensures Beside(Reverse(e)) && Stroke(Reverse(e)) == Stroke(e)
    ensures IsSpot(box, Reverse(e), row, col) <==> IsSpot(box, e, row, col)
  {
  }

  /** Only crossing diagonals compete for a spot. */
  lemma SharedSpot(box: Box, a: Edge, b: Edge, row: int, col: int)
    requires Beside(a) && Beside(b) && IsSpot(box, a, row, col) && IsSpot(box, b, row, col)
    ensures || b == a || b == Reverse(a)
            || (Stroke(a) in {'/', '\\'} && Stroke(b) in {'/', '\\'} && Stroke(a) != Stroke(b))
  {
    assert a.from.x + a.to.x == b.from.x + b.to.x;
    assert a.from.y + a.to.y == b.from.y + b.to.y;
  }

  ghost predicate Draws(cells: map<Coord, Cell>, box: Box, e: Edge, row: int, col: int) {
    Beside(e) && e.to in cells && IsSpot(box, e, row, col)
  }

  /** Ink stands exactly where some edge between neighbours draws, and a straight stroke is that of every edge there. */
  lemma {:induction false} InkExactly(cells: map<Coord, Cell>, box: Box, edges: seq<Edge>, row: int, col: int)
    ensures Ink(cells, box, edges, row, col) != ' ' <==> exists e | e in edges :: Draws(cells, box, e, row, col)
    ensures forall e | e in edges && Draws(cells, box, e, row, col) && Stroke(e) in {'-', '|'} ::
      Ink(cells, box, edges, row, col) == Stroke(e)
  {
    if edges != [] {
      var before, last := edges[..|edges| - 1], edges[|edges| - 1];
      assert edges == before + [last];
      InkExactly(cells, box, before, row, col);
      if Draws(cells, box, last, row, col) {
        assert last in edges;
        forall e | e in edges && Draws(cells, box, e, row, col) && Stroke(e) in {'-', '|'}
          ensures Stroke(last) == Stroke(e)
        {
          SharedSpot(box, last, e, row, col);
        }
      }
    }
  }

  /** In the drawing of a survey, an edge between neighbours has its connector: none falls outside or under a glyph. */
  lemma SurveyEdgeShows(t: Trip, s: Survey, dist: map<int, nat>, box: Box, e: Edge, current: Coord,
                        glyph: (Cell, bool) -> seq<char>)
    returns (row: nat, col: nat)
    requires Invariant(t, s, dist) && Encloses(box, s.cells.Keys) && e in s.edges && Beside(e)
    requires forall c, b :: |glyph(c, b)| == 3
    ensures box.Inside(row, col) && IsSpot(box, e, row, col)
    ensures Pixel(s.cells, box, s.edges, current, glyph, row, col) in {'-', '|', '/', '\\'}
    ensures Stroke(e) in {'-', '|'} ==> Pixel(s.cells, box, s.edges, current, glyph, row, col) == Stroke(e)
  {
    hide Inverse, Drawn, Near, Entered, Joined, Ink;
    assert EdgeOk(t, s, e);
    row := (e.from.y - box.minY) + (e.to.y - box.minY);
    col := 2 * (e.from.x - box.minX) + 2 * (e.to.x - box.minX) + 1;
    SpotIsInside(box, e, row, col);
    SpotIsNoGlyph(s.cells, box, e, row, col);
    InkExactly(s.cells, box, s.edges, row, col);
    InkIsStroke(s.cells, box, s.edges, row, col);
    assert Draws(s.cells, box, e, row, col);
  }

  lemma {:induction false} InkIsStroke(cells: map<Coord, Cell>, box: Box, edges: seq<Edge>, row: int, col: int)
    ensures Ink(cells, box, edges, row, col) in {' ', '-', '|', '/', '\\'}
  {
    if edges != [] {
      InkIsStroke(cells, box, edges[..|edges| - 1], row, col);
    }
  }

  ghost predicate Encloses(box: Box, places: set<Coord>) {
    forall c | c in places :: box.Holds(c)
  }

  /** No side of the box could be moved in. */
  ghost predicate Touches(box: Box, places: set<Coord>) {
    && (exists c | c in places :: c.x == box.minX)
    && (exists c | c in places :: c.x == box.maxX)
    && (exists c | c in places :: c.y == box.minY)
    && (exists c | c in places :: c.y == box.maxY)
  }

  method FindBox(cells: map<Coord, Cell>) returns (box: Box)
    requires cells != map[]
    ensures Encloses(box, cells.Keys) && Touches(box, cells.Keys)
  {
    var first: Coord :| first in cells;
    box := Box(first.x, first.x, first.y, first.y);
    var todo := cells.Keys - {first};
    while todo != {}
      invariant todo <= cells.Keys && Touches(box, cells.Keys)
      invariant forall c | c in cells.Keys :: c in todo || box.Holds(c)
    {
      var c: Coord :| c in todo;
      todo := todo - {c};
      if c.x < box.minX {
        box := box.(minX := c.x);
      }
      if c.x > box.maxX {
        box := box.(maxX := c.x);
      }
      if c.y < box.minY {
        box := box.(minY := c.y);
      }
      if c.y > box.maxY {
        box := box.(maxY := c.y);
      }
    }
  }

  /** Writes the glyph of place k. */
  method PlaceGlyph(rows: array2<char>, box: Box, k: Coord, glyph: seq<char>)
    requires box.Holds(k) && rows.Length0 == box.Rows() && rows.Length1 == box.Columns() && |glyph| == 3
    modifies rows
    ensures forall r, c | 0 <= r < rows.Length0 && 0 <= c < rows.Length1 ::
        rows[r, c] == (if r % 2 == 0 && c % 4 < 3 && box.PlaceAt(r, c) == k then glyph[c % 4] else old(rows[r, c]))
  {
    var col, row := (k.x - box.minX) * 4, (k.y - box.minY) * 2;
    var i := 0;
    while i < |glyph|
      invariant i <= 3
      invariant forall r, c | 0 <= r < rows.Length0 && 0 <= c < rows.Length1 ::
          rows[r, c] == (if r == row && col <= c < col + i then glyph[c - col] else old(rows[r, c]))
    {
      if col + i >= rows.Length1 {
        break;
      }
      rows[row, col + i] := glyph[i];
      i := i + 1;
    }
  }

  /** Draws the connector of one edge, if it has one. */
  method PlaceConnector(rows: array2<char>, cells: map<Coord, Cell>, box: Box, eg: Edge)
    requires rows.Length0 == box.Rows() && rows.Length1 == box.Columns()
    modifies rows
    ensures forall r, c | 0 <= r < rows.Length0 && 0 <= c < rows.Length1 ::
        rows[r, c] == (if Beside(eg) && eg.to in cells && IsSpot(box, eg, r, c) then Stroke(eg) else old(rows[r, c]))
  {
    var dx := eg.to.x - eg.from.x;
    var dy := eg.to.y - eg.from.y;
    if dx == 0 && dy == 0 {
      return;
    }
    if dx < -1 || dx > 1 || dy < -1 || dy > 1 {
      return;
    }
    if eg.to !in cells {
      return;
    }
    var col, row := (eg.from.x - box.minX) * 4, (eg.from.y - box.minY) * 2;
    var ccol, crow, glyph;
    if dx == 1 && dy == 0 {
      ccol, crow, glyph := col + 3, row, '-';
    } else if dx == -1 && dy == 0 {
      ccol, crow, glyph := col - 1, row, '-';
    } else if dx == 0 && dy == 1 {
      ccol, crow, glyph := col + 1, row + 1, '|';
    } else if dx == 0 && dy == -1 {
      ccol, crow, glyph := col + 1, row - 1, '|';
    } else if dx == 1 && dy == 1 {
      ccol, crow, glyph := col + 3, row + 1, '\\';
    } else if dx == -1 && dy == -1 {
      ccol, crow, glyph := col - 1, row - 1, '\\';
    } else if dx == 1 && dy == -1 {
      ccol, crow, glyph := col + 3, row - 1, '/';
    } else {
      ccol, crow, glyph := col - 1, row + 1, '/';
    }
    assert IsSpot(box, eg, crow, ccol) && glyph == Stroke(eg);
    if crow < 0 || crow >= rows.Length0 || ccol < 0 || ccol >= rows.Length1 {
      return;
    }
    rows[crow, ccol] := glyph;
  }

  /** The glyph at a covered spot, else what the edges leave there. */
  function Pixel(cells: map<Coord, Cell>, box: Box, edges: seq<Edge>, current: Coord,
                 glyph: (Cell, bool) -> seq<char>, row: nat, col: nat): char
    requires forall c, b :: |glyph(c, b)| == 3
  {
    if OnGlyph(cells, box, row, col) then
      var k := box.PlaceAt(row, col);
      glyph(cells[k], k == current)[col % 4]
    else Ink(cells, box, edges, row, col)
  }

  /** Every place of the survey is drawn whole, and each connector half way between its two cells. */
  method DrawGrid(cells: map<Coord, Cell>, edges: seq<Edge>, current: Coord, glyph: (Cell, bool) -> seq<char>)
    returns (rows: array2<char>, box: Box)
    requires forall c, b :: |glyph(c, b)| == 3
    ensures fresh(rows)
    ensures cells == map[] ==> rows.Length0 == 0
    ensures cells != map[] ==>
      && Encloses(box, cells.Keys) && Touches(box, cells.Keys)
      && rows.Length0 == box.Rows() && rows.Length1 == box.Columns()
      && forall r, c | 0 <= r < rows.Length0 && 0 <= c < rows.Length1 ::
          rows[r, c] == Pixel(cells, box, edges, current, glyph, r, c)
  {
    if |cells| == 0 {
      rows, box := new char[0, 0], Box(0, 0, 0, 0);
      return;
    }
    box := FindBox(cells);
    rows := new char[box.Rows(), box.Columns()]((_, _) => ' ');
    var todo := cells.Keys;
    while todo != {}
      invariant fresh(rows) && todo <= cells.Keys
      invariant forall r, c | 0 <= r < rows.Length0 && 0 <= c < rows.Length1 ::
          rows[r, c] == (if OnGlyph(cells, box, r, c) && box.PlaceAt(r, c) !in todo
                         then Pixel(cells, box, [], current, glyph, r, c) else ' ')
    {
      var k: Coord :| k in todo;
      PlaceGlyph(rows, box, k, glyph(cells[k], k == current));
      todo := todo - {k};
    }
    var i := 0;
    while i < |edges|
      invariant fresh(rows) && i <= |edges|
      invariant forall r, c | 0 <= r < rows.Length0 && 0 <= c < rows.Length1 ::
          rows[r, c] == Pixel(cells, box, edges[..i], current, glyph, r, c)
    {
      PlaceConnector(rows, cells, box, edges[i]);
      forall r: nat, c: nat
        ensures Pixel(cells, box, edges[..i + 1], current, glyph, r, c) ==
          if Beside(edges[i]) && edges[i].to in cells && IsSpot(box, edges[i], r, c) then Stroke(edges[i])
          else Pixel(cells, box, edges[..i], current, glyph, r, c)
      {
        PixelStep(cells, box, edges, i, current, glyph, r, c);
      }
      i := i + 1;
    }
    assert edges[..i] == edges;
  }

  lemma PixelStep(cells: map<Coord, Cell>, box: Box, edges: seq<Edge>, i: nat, current: Coord,
                  glyph: (Cell, bool) -> seq<char>, row: nat, col: nat)
    requires i < |edges| && forall c, b :: |glyph(c, b)| == 3
    ensures Pixel(cells, box, edges[..i + 1], current, glyph, row, col) ==
      if Beside(edges[i]) && edges[i].to in cells && IsSpot(box, edges[i], row, col) then Stroke(edges[i])
      else Pixel(cells, box, edges[..i], current, glyph, row, col)
  {
    assert edges[..i + 1][..i] == edges[..i];
    if Beside(edges[i]) && IsSpot(box, edges[i], row, col) {
      SpotIsNoGlyph(cells, box, edges[i], row, col);
    }
  }

  /** A stroke lies as its edge does; rows count downwards. */
  lemma StrokeIs(c: Coord)
    ensures Stroke(Edge(c, Coord(c.x + 1, c.y))) == '-' && Stroke(Edge(c, Coord(c.x - 1, c.y))) == '-'
    ensures Stroke(Edge(c, Coord(c.x, c.y + 1))) == '|' && Stroke(Edge(c, Coord(c.x, c.y - 1))) == '|'
    ensures Stroke(Edge(c, Coord(c.x + 1, c.y + 1))) == '\\' && Stroke(Edge(c, Coord(c.x - 1, c.y - 1))) == '\\'
    ensures Stroke(Edge(c, Coord(c.x + 1, c.y - 1))) == '/' && Stroke(Edge(c, Coord(c.x - 1, c.y + 1))) == '/'
  {
  }

  /** Every place shows its glyph, whole, four columns and two rows from the next, around the middle of its cell. */
  lemma GlyphShows(cells: map<Coord, Cell>, box: Box, edges: seq<Edge>, current: Coord,
                   glyph: (Cell, bool) -> seq<char>, k: Coord, i: nat)
    requires (forall c, b :: |glyph(c, b)| == 3) && Encloses(box, cells.Keys) && k in cells && i < 3
    ensures var row, col := 2 * (k.y - box.minY), 4 * (k.x - box.minX) + i;
      && box.Inside(row, col)
      && Pixel(cells, box, edges, current, glyph, row, col) == glyph(cells[k], k == current)[i]
      && (i == 1 ==> row == box.MidRow(k) && col == box.MidColumn(k))
  {
    hide Ink;
    assert k in cells.Keys && box.Holds(k);
    var row, col := 2 * (k.y - box.minY), 4 * (k.x - box.minX) + i;
    assert box.PlaceAt(row, col) == k;
  }
}

// The drunken-bishop picture of a signature: a clamped walk of four steps a byte over a small
// grid, each cell drawn by how often it was visited.
module Randomart {
  import opened Words
  import opened Timeline

  const CHAR_SET := " .o-=/\\|^v<>OLS"
  const MAX_CHAR := 14
  // Marks above the highest visit count.
  const MOST_VISITS := 12
  const START_MARK := 13
  const END_MARK := 14

  datatype Cell = Cell(x: int, y: int)

  // Width and height; an unknown size is drawn large.
  datatype Grid = Grid(sizeX: nat, sizeY: nat) {
    predicate Contains(c: Cell) { 0 <= c.x < sizeX && 0 <= c.y < sizeY }

    function Center(): Cell { Cell(sizeX / 2, sizeY / 2) }
  }

  function SizeToDimensions(size: byte): (g: Grid)
    ensures g.Contains(g.Center())
  {
    if size == 0 then Grid(9, 5) else if size == 1 then Grid(13, 7) else Grid(17, 9)
  }

  type direction = n: int | 0 <= n < 4

  // Two bits at a time, the low bits first.
  function DirectionsFrom(input: byte, n: nat): (d: seq<direction>)
    ensures |d| == n
  {
    if n == 0 then [] else [input % 4] + DirectionsFrom(input / 4, n - 1)
  }

  // A byte is four steps.
  function Directions(b: byte): seq<direction> { DirectionsFrom(b, 4) }

  function AllDirections(data: seq<byte>): seq<direction> {
    if data == [] then [] else AllDirections(Init(data)) + Directions(Last(data))
  }

  function Clamp(v: int, size: nat): int { Min(Max(v, 0), size - 1) }

  // The first bit moves right or left, the second down or up; walls stop the walk.
  function Moved(g: Grid, c: Cell, d: direction): Cell {
    Cell(Clamp(if d % 2 > 0 then c.x + 1 else c.x - 1, g.sizeX),
         Clamp(if d / 2 > 0 then c.y + 1 else c.y - 1, g.sizeY))
  }

  function End(g: Grid, walk: seq<direction>): Cell {
    if walk == [] then g.Center() else Moved(g, End(g, Init(walk)), Last(walk))
  }

  // How many steps of the walk end in a cell.
  function Visits(g: Grid, walk: seq<direction>, c: Cell): nat {
    if walk == [] then 0
    else Visits(g, Init(walk), c) + if End(g, walk) == c then 1 else 0
  }

  lemma {:induction false} WalkStaysInside(g: Grid, walk: seq<direction>)
    requires g.Contains(g.Center())
    ensures g.Contains(End(g, walk))
  {
    if walk != [] {
      WalkStaysInside(g, Init(walk));
    }
  }

  // What a cell is drawn with.
  function Mark(g: Grid, walk: seq<direction>, c: Cell): (m: nat)
    ensures m < |CHAR_SET|
  {
    if c == End(g, walk) then END_MARK
    else if c == g.Center() then START_MARK
    else Min(MOST_VISITS, Visits(g, walk, c))
  }

  const VERTICAL := '\U{2502}'
  const HORIZONTAL := '\U{2500}'

  function Border(n: nat): (s: string)
    ensures |s| == n
  {
    seq(n, _ => HORIZONTAL)
  }

  function Row(g: Grid, walk: seq<direction>, y: int): (s: string)
    ensures |s| == g.sizeX + 2
  {
    [VERTICAL] + seq(g.sizeX, x => CHAR_SET[Mark(g, walk, Cell(x, y))]) + [VERTICAL]
  }

  function Rows(g: Grid, walk: seq<direction>, n: nat): (l: seq<string>)
    ensures |l| == n
  {
    seq(n, y => Row(g, walk, y))
  }

  function Picture(g: Grid, walk: seq<direction>): seq<string> {
    [['\U{256D}'] + Border(g.sizeX) + ['\U{256E}']]
    + Rows(g, walk, g.sizeY)
    + [['\U{2570}'] + Border(g.sizeX) + ['\U{256F}']]
  }

  function JoinLines(lines: seq<string>): string {
    if lines == [] then "" else if |lines| == 1 then lines[0]
    else JoinLines(Init(lines)) + "\n" + Last(lines)
  }

  lemma RowShape(g: Grid, walk: seq<direction>, y: int)
    ensures '\n' !in Row(g, walk, y)
    ensures forall x :: 0 <= x < g.sizeX ==> Row(g, walk, y)[x + 1] == CHAR_SET[Mark(g, walk, Cell(x, y))]
  {
    assert forall i :: 0 <= i < |CHAR_SET| ==> CHAR_SET[i] != '\n';
  }

  // The shape and content of the picture: a line for each row and two borders, all equally
  // wide, with every cell drawn from the character set.
  lemma PictureShape(size: byte, data: seq<byte>)
    ensures var g, walk := SizeToDimensions(size), AllDirections(data);
            var p := Picture(g, walk);
            && |p| == g.sizeY + 2
            && (forall i :: 0 <= i < |p| ==> |p[i]| == g.sizeX + 2 && '\n' !in p[i])
            && (forall x, y :: 0 <= x < g.sizeX && 0 <= y < g.sizeY ==>
                  p[y + 1][x + 1] == CHAR_SET[Mark(g, walk, Cell(x, y))])
            && g.Contains(End(g, walk))
  {
    var g, walk := SizeToDimensions(size), AllDirections(data);
    var p := Picture(g, walk);
    WalkStaysInside(g, walk);
    forall i | 0 <= i < |p|
      ensures |p[i]| == g.sizeX + 2 && '\n' !in p[i]
    {
      if 0 < i <= g.sizeY {
        RowShape(g, walk, i - 1);
      }
    }
    forall x, y | 0 <= x < g.sizeX && 0 <= y < g.sizeY
      ensures p[y + 1][x + 1] == CHAR_SET[Mark(g, walk, Cell(x, y))]
    {
      RowShape(g, walk, y);
      assert p[y + 1] == Row(g, walk, y);
    }
  }

  // Visits to the first n cells of a row, and to the first n rows.
  function RowVisits(g: Grid, walk: seq<direction>, y: int, n: nat): nat {
    if n == 0 then 0 else RowVisits(g, walk, y, n - 1) + Visits(g, walk, Cell(n - 1, y))
  }

  function GridVisits(g: Grid, walk: seq<direction>, n: nat): nat {
    if n == 0 then 0 else GridVisits(g, walk, n - 1) + RowVisits(g, walk, n - 1, g.sizeX)
  }

  // Every step is counted in exactly one cell.
  lemma {:induction false} VisitsAddUp(g: Grid, walk: seq<direction>)
    requires g.Contains(g.Center())
    ensures GridVisits(g, walk, g.sizeY) == |walk|
  {
    if walk == [] {
      NoVisits(g, g.sizeY);
    } else {
      VisitsAddUp(g, Init(walk));
      WalkStaysInside(g, walk);
      OneMoreInGrid(g, walk, g.sizeY);
    }
  }

  lemma {:induction false} NoVisits(g: Grid, n: nat)
    ensures GridVisits(g, [], n) == 0
  {
    if n > 0 {
      NoVisits(g, n - 1);
      NoVisitsInRow(g, n - 1, g.sizeX);
    }
  }

  lemma {:induction false} NoVisitsInRow(g: Grid, y: int, n: nat)
    ensures RowVisits(g, [], y, n) == 0
  {
    if n > 0 {
      NoVisitsInRow(g, y, n - 1);
    }
  }

  lemma {:induction false} OneMoreInRow(g: Grid, walk: seq<direction>, y: int, n: nat)
    requires walk != []
    ensures var e := End(g, walk);
            RowVisits(g, walk, y, n)
            == RowVisits(g, Init(walk), y, n) + if e.y == y && 0 <= e.x < n then 1 else 0
  {
    if n > 0 {
      OneMoreInRow(g, walk, y, n - 1);
    }
  }

  lemma {:induction false} OneMoreInGrid(g: Grid, walk: seq<direction>, n: nat)
    requires walk != [] && g.Contains(End(g, walk))
    ensures GridVisits(g, walk, n) == GridVisits(g, Init(walk), n) + if End(g, walk).y < n then 1 else 0
  {
    if n > 0 {
      OneMoreInGrid(g, walk, n - 1);
      OneMoreInRow(g, walk, n - 1, g.sizeX);
    }
  }

  // The cells hold their capped visit counts.
  ghost predicate Counts(g: Grid, walk: seq<direction>, field: array2<int>)
    reads field
  {
    && field.Length0 == g.sizeX && field.Length1 == g.sizeY
    && forall i, j :: 0 <= i < g.sizeX && 0 <= j < g.sizeY ==>
         field[i, j] == Min(MOST_VISITS, Visits(g, walk, Cell(i, j)))
  }

  method NextCell(g: Grid, x: int, y: int, input: byte) returns (x': int, y': int)
    ensures Cell(x', y') == Moved(g, Cell(x, y), input % 4)
  {
    x' := if input % 2 > 0 then x + 1 else x - 1;
    y' := if input / 2 % 2 > 0 then y + 1 else y - 1;
    x' := Min(Max(x', 0), g.sizeX - 1);
    y' := Min(Max(y', 0), g.sizeY - 1);
    assert input % 4 % 2 == input % 2 && input % 4 / 2 == input / 2 % 2;
  }

  method Step(g: Grid, field: array2<int>, x: int, y: int, input: byte, ghost walk: seq<direction>)
    returns (x': int, y': int, ghost walk': seq<direction>)
    requires g.Contains(g.Center()) && Counts(g, walk, field) && Cell(x, y) == End(g, walk)
    modifies field
    ensures walk' == walk + [input % 4]
    ensures Counts(g, walk', field) && Cell(x', y') == End(g, walk')
  {
    ghost var d: direction := input % 4;
    x', y' := NextCell(g, x, y, input);
    EndAppend(g, walk, d);
    WalkStaysInside(g, walk + [d]);
    Visit(g, field, x', y', walk, d);
    walk' := walk + [d];
  }

  lemma EndAppend(g: Grid, walk: seq<direction>, d: direction)
    ensures End(g, walk + [d]) == Moved(g, End(g, walk), d)
  {
    assert Init(walk + [d]) == walk;
  }

  method Visit(g: Grid, field: array2<int>, x: int, y: int, ghost walk: seq<direction>, ghost d: direction)
    requires Counts(g, walk, field) && Cell(x, y) == End(g, walk + [d]) && g.Contains(Cell(x, y))
    modifies field
    ensures Counts(g, walk + [d], field)
  {
    forall i, j
      ensures Visits(g, walk + [d], Cell(i, j)) == Visits(g, walk, Cell(i, j)) + if i == x && j == y then 1 else 0
    {
      VisitsAppend(g, walk, d, Cell(i, j));
    }
    if field[x, y] < MAX_CHAR - 2 {
      field[x, y] := field[x, y] + 1;
    }
  }

  lemma VisitsAppend(g: Grid, walk: seq<direction>, d: direction, c: Cell)
    ensures Visits(g, walk + [d], c) == Visits(g, walk, c) + if End(g, walk + [d]) == c then 1 else 0
  {
    assert Init(walk + [d]) == walk;
  }

  method WalkByte(g: Grid, field: array2<int>, x0: int, y0: int, b: byte, ghost walk: seq<direction>)
    returns (x: int, y: int)
    requires g.Contains(g.Center()) && Counts(g, walk, field) && Cell(x0, y0) == End(g, walk)
    modifies field
    ensures Counts(g, walk + Directions(b), field) && Cell(x, y) == End(g, walk + Directions(b))
  {
    x, y := x0, y0;
    var input := b;
    ghost var w, left := walk, Directions(b);
    for k := 0 to 4
      invariant Counts(g, w, field) && Cell(x, y) == End(g, w)
      invariant left == DirectionsFrom(input, 4 - k) && w + left == walk + Directions(b)
    {
      NextDirection(w, input, 4 - k);
      x, y, w := Step(g, field, x, y, input, w);
      input, left := input / 4, left[1..];
    }
    assert left == [] && w == walk + Directions(b);
  }

  lemma NextDirection(w: seq<direction>, input: byte, n: nat)
    requires n > 0
    ensures var left := DirectionsFrom(input, n);
            left[1..] == DirectionsFrom(input / 4, n - 1) && w + left == (w + [input % 4]) + left[1..]
  {
    var rest := DirectionsFrom(input / 4, n - 1);
    assert w + ([input % 4] + rest) == (w + [input % 4]) + rest;
  }

  method Randomart(data: seq<byte>, size: byte) returns (art: string)
    ensures art == JoinLines(Picture(SizeToDimensions(size), AllDirections(data)))
  {
    var g := SizeToDimensions(size);
    var field := new int[g.sizeX, g.sizeY]((_, _) => 0);
    var x, y := g.sizeX / 2, g.sizeY / 2;
    for i := 0 to |data|
      invariant Counts(g, AllDirections(data[..i]), field) && Cell(x, y) == End(g, AllDirections(data[..i]))
    {
      assert Init(data[..i + 1]) == data[..i];
      x, y := WalkByte(g, field, x, y, data[i], AllDirections(data[..i]));
    }
    assert data[..|data|] == data;
    WalkStaysInside(g, AllDirections(data));
    field[g.sizeX / 2, g.sizeY / 2] := MAX_CHAR - 1;
    field[x, y] := MAX_CHAR;
    art := Draw(g, field, AllDirections(data));
  }

  method Draw(g: Grid, field: array2<int>, ghost walk: seq<direction>) returns (art: string)
    requires field.Length0 == g.sizeX && field.Length1 == g.sizeY
    requires forall i, j :: 0 <= i < g.sizeX && 0 <= j < g.sizeY ==> field[i, j] == Mark(g, walk, Cell(i, j))
    ensures art == JoinLines(Picture(g, walk))
  {
    art := ['\U{256D}'];
    art := art + Border(g.sizeX);
    art := art + ['\U{256E}'];
    ghost var top := [art];
    art := art + "\n";
    for y := 0 to g.sizeY
      invariant art == JoinLines(top + Rows(g, walk, y)) + "\n"
    {
      art := DrawRow(g, field, y, art, walk);
      OneMoreLine(top + Rows(g, walk, y), Row(g, walk, y));
      assert top + Rows(g, walk, y + 1) == top + Rows(g, walk, y) + [Row(g, walk, y)];
      assert art == (JoinLines(top + Rows(g, walk, y)) + "\n" + Row(g, walk, y)) + "\n";
    }
    ghost var last := ['\U{2570}'] + Border(g.sizeX) + ['\U{256F}'];
    OneMoreLine(top + Rows(g, walk, g.sizeY), last);
    ghost var before := art;
    art := art + ['\U{2570}'];
    art := art + Border(g.sizeX);
    art := art + ['\U{256F}'];
    assert art == before + last;
  }

  method DrawRow(g: Grid, field: array2<int>, y: int, before: string, ghost walk: seq<direction>)
    returns (art: string)
    requires field.Length0 == g.sizeX && field.Length1 == g.sizeY && 0 <= y < g.sizeY
    requires forall i, j :: 0 <= i < g.sizeX && 0 <= j < g.sizeY ==> field[i, j] == Mark(g, walk, Cell(i, j))
    ensures art == before + Row(g, walk, y) + "\n"
  {
    art := before + [VERTICAL];
    ghost var cells: string := "";
    for x := 0 to g.sizeX
      invariant art == before + ([VERTICAL] + cells)
      invariant cells == Row(g, walk, y)[1..x + 1]
    {
      art := art + [CHAR_SET[field[x, y]]];
      cells := cells + [CHAR_SET[field[x, y]]];
    }
    art := art + [VERTICAL];
    art := art + "\n";
    assert [VERTICAL] + cells + [VERTICAL] == Row(g, walk, y);
  }

  lemma OneMoreLine(lines: seq<string>, line: string)
    requires lines != []
    ensures JoinLines(lines + [line]) == JoinLines(lines) + "\n" + line
  {
    assert Init(lines + [line]) == lines;
  }
}

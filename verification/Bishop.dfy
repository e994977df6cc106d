// The walk and the picture of a signature in plain numbers: from the bits of its data to the
// characters drawn.
module Bishop {
  import opened Words
  import opened Timeline
  import opened Randomart

  function Width(size: byte): nat { if size == 0 then 9 else if size == 1 then 13 else 17 }

  function Height(size: byte): nat { if size == 0 then 5 else if size == 1 then 7 else 9 }

  // The position after all of some data and k more steps of a byte.
  function Position(size: byte, data: seq<byte>, b: byte, k: nat): Cell
    requires k <= 4
  {
    End(SizeToDimensions(size), AllDirections(data) + Directions(b)[..k])
  }

  predicate BitSet(b: byte, weight: nat)
    requires weight > 0
  {
    b / weight % 2 == 1
  }

  // One step to the right or down if a bit is set, to the left or up if not, but not off the grid.
  function Stepped(v: int, up: bool, size: nat): int {
    if up then (if v == size - 1 then v else v + 1) else (if v == 0 then v else v - 1)
  }

  lemma FourDirections(b: byte)
    ensures Directions(b) == [b % 4, b / 4 % 4, b / 16 % 4, b / 64 % 4]
  {
    assert b / 4 / 4 == b / 16 && b / 16 / 4 == b / 64;
    assert DirectionsFrom(b / 64, 1) == [b / 64 % 4] + [];
    assert DirectionsFrom(b / 16, 2) == [b / 16 % 4] + DirectionsFrom(b / 64, 1);
    assert DirectionsFrom(b / 4, 3) == [b / 4 % 4] + DirectionsFrom(b / 16, 2);
  }

  const XWeights: seq<nat> := [1, 4, 16, 64]
  const YWeights: seq<nat> := [2, 8, 32, 128]

  // The two low bits of a quotient.
  lemma TwoBits(m: int)
    requires m >= 0
    ensures m % 4 % 2 == m % 2 && m % 4 / 2 == m / 2 % 2
  {
    var q, r := m / 4, m % 4;
    assert m == 4 * q + r && m / 2 == 2 * q + r / 2;
  }

  lemma Halves(b: int)
    requires b >= 0
    ensures b / 4 / 2 == b / 8 && b / 16 / 2 == b / 32 && b / 64 / 2 == b / 128
  {
  }

  lemma DirectionBits(b: byte, k: nat)
    requires k < 4
    ensures Directions(b)[k] % 2 > 0 <==> BitSet(b, XWeights[k])
    ensures Directions(b)[k] / 2 > 0 <==> BitSet(b, YWeights[k])
  {
    FourDirections(b);
    Halves(b);
    if k == 0 {
      TwoBits(b);
    } else if k == 1 {
      TwoBits(b / 4);
    } else if k == 2 {
      TwoBits(b / 16);
    } else {
      TwoBits(b / 64);
    }
  }

  lemma MovedSteps(g: Grid, c: Cell, d: direction)
    requires g.Contains(c)
    ensures Moved(g, c, d) == Cell(Stepped(c.x, d % 2 > 0, g.sizeX), Stepped(c.y, d / 2 > 0, g.sizeY))
  {
  }

  // The walk starts in the middle, and the k-th step of a byte goes right if and only if bit 2k
  // is set, and down if and only if bit 2k + 1 is, stopped at the walls.
  lemma StepMeaning(size: byte, data: seq<byte>, b: byte, k: nat)
    requires k < 4
    ensures Position(size, [], b, 0) == Cell(Width(size) / 2, Height(size) / 2)
    ensures Position(size, data, b, 4) == Position(size, data + [b], 0, 0)
    ensures var c := Position(size, data, b, k);
            Position(size, data, b, k + 1)
            == Cell(Stepped(c.x, BitSet(b, XWeights[k]), Width(size)), Stepped(c.y, BitSet(b, YWeights[k]), Height(size)))
  {
    var g := SizeToDimensions(size);
    assert AllDirections([]) + Directions(b)[..0] == [];
    assert Init(data + [b]) == data;
    assert Directions(b)[..4] == Directions(b);
    assert AllDirections(data + [b]) + Directions(0)[..0] == AllDirections(data) + Directions(b);
    var walk, d := AllDirections(data) + Directions(b)[..k], Directions(b)[k];
    assert AllDirections(data) + Directions(b)[..k + 1] == walk + [d];
    EndAppend(g, walk, d);
    WalkStaysInside(g, walk);
    MovedSteps(g, End(g, walk), d);
    DirectionBits(b, k);
  }

  // ----- Runs that meet no wall -----

  // No step is stopped.
  predicate Free(g: Grid, walk: seq<direction>) {
    walk == [] ||
    (Free(g, Init(walk))
     && End(g, walk).x != End(g, Init(walk)).x && End(g, walk).y != End(g, Init(walk)).y)
  }

  function Rights(walk: seq<direction>): nat {
    if walk == [] then 0 else Rights(Init(walk)) + Last(walk) % 2
  }

  function Downs(walk: seq<direction>): nat {
    if walk == [] then 0 else Downs(Init(walk)) + Last(walk) / 2
  }

  lemma {:induction false} FreeEnd(g: Grid, walk: seq<direction>)
    requires g.Contains(g.Center()) && Free(g, walk)
    ensures End(g, walk) == Cell(g.Center().x + 2 * Rights(walk) - |walk|, g.Center().y + 2 * Downs(walk) - |walk|)
  {
    if walk != [] {
      FreeEnd(g, Init(walk));
      WalkStaysInside(g, Init(walk));
      MovedSteps(g, End(g, Init(walk)), Last(walk));
    }
  }

  lemma {:induction false} RightsAppend(a: seq<direction>, b: seq<direction>)
    ensures Rights(a + b) == Rights(a) + Rights(b) && Downs(a + b) == Downs(a) + Downs(b)
  {
    if b == [] {
      assert a + b == a;
    } else {
      RightsAppend(a, Init(b));
      assert Init(a + b) == a + Init(b);
    }
  }

  // The set bits of even and of odd number.
  function EvenBits(data: seq<byte>): nat {
    if data == [] then 0
    else
      var b: int := Last(data);
      EvenBits(Init(data)) + b % 2 + b / 4 % 2 + b / 16 % 2 + b / 64 % 2
  }

  function OddBits(data: seq<byte>): nat {
    if data == [] then 0
    else
      var b: int := Last(data);
      OddBits(Init(data)) + b / 2 % 2 + b / 8 % 2 + b / 32 % 2 + b / 128 % 2
  }

  lemma OneRight(d: direction)
    ensures Rights([d]) == d % 2 && Downs([d]) == d / 2
  {
    assert Init([d]) == [];
  }

  lemma FourRights(p: direction, q: direction, r: direction, s: direction)
    ensures Rights([p] + [q] + [r] + [s]) == p % 2 + q % 2 + r % 2 + s % 2
    ensures Downs([p] + [q] + [r] + [s]) == p / 2 + q / 2 + r / 2 + s / 2
  {
    OneRight(p);
    OneRight(q);
    OneRight(r);
    OneRight(s);
    RightsAppend([p], [q]);
    RightsAppend([p] + [q], [r]);
    RightsAppend([p] + [q] + [r], [s]);
  }

  lemma ByteRights(b: byte)
    ensures Rights(Directions(b)) == EvenBits([b]) && Downs(Directions(b)) == OddBits([b])
  {
    var p, q, r, s: direction := b % 4, b / 4 % 4, b / 16 % 4, b / 64 % 4;
    FourDirections(b);
    assert Directions(b) == [p] + [q] + [r] + [s];
    FourRights(p, q, r, s);
    assert Init([b]) == [];
    Halves(b);
    TwoBits(b);
    TwoBits(b / 4);
    TwoBits(b / 16);
    TwoBits(b / 64);
  }

  lemma {:induction false} DataRights(data: seq<byte>)
    ensures |AllDirections(data)| == 4 * |data|
    ensures Rights(AllDirections(data)) == EvenBits(data) && Downs(AllDirections(data)) == OddBits(data)
  {
    if data != [] {
      DataRights(Init(data));
      RightsAppend(AllDirections(Init(data)), Directions(Last(data)));
      ByteRights(Last(data));
      assert Init([Last(data)]) == [] && Last([Last(data)]) == Last(data);
    }
  }

  lemma FreeDataEnd(g: Grid, data: seq<byte>, walk: seq<direction>)
    requires g.Contains(g.Center()) && walk == AllDirections(data) && Free(g, walk)
    ensures End(g, walk) == Cell(g.sizeX / 2 + EvenBits(data) - (4 * |data| - EvenBits(data)),
                                 g.sizeY / 2 + OddBits(data) - (4 * |data| - OddBits(data)))
  {
    DataRights(data);
    FreeEnd(g, walk);
  }

  lemma Sizes(size: byte)
    ensures SizeToDimensions(size) == Grid(Width(size), Height(size))
  {
  }

  // A run that meets no wall ends as far right of the middle as the data has more set than clear
  // bits of even number, and as far down for those of odd number.
  lemma FreeRunEnds(size: byte, data: seq<byte>, g: Grid, end: Cell)
    requires g == SizeToDimensions(size) && end == End(g, AllDirections(data))
    requires Free(g, AllDirections(data))
    ensures end.x == Width(size) / 2 + EvenBits(data) - (4 * |data| - EvenBits(data))
    ensures end.y == Height(size) / 2 + OddBits(data) - (4 * |data| - OddBits(data))
  {
    FreeDataEnd(g, data, AllDirections(data));
    Sizes(size);
  }

  // ----- The picture -----

  // The steps that end in a cell.
  ghost function Ends(g: Grid, walk: seq<direction>, c: Cell): set<nat> {
    set k: nat | 1 <= k <= |walk| && End(g, walk[..k]) == c
  }

  lemma OneMoreEnd(g: Grid, walk: seq<direction>, c: Cell)
    requires walk != []
    ensures |Ends(g, walk, c)| == |Ends(g, Init(walk), c)| + if End(g, walk) == c then 1 else 0
  {
    var n, before, after := |walk|, Ends(g, Init(walk), c), Ends(g, walk, c);
    assert walk[..n] == walk;
    forall k: nat
      ensures k in after <==> k in before || (k == n && End(g, walk) == c)
    {
      if k < n {
        assert Init(walk)[..k] == walk[..k];
      }
    }
    OneMore(before, after, n, End(g, walk) == c);
  }

  lemma OneMore(before: set<nat>, after: set<nat>, n: nat, more: bool)
    requires n !in before && forall k: nat :: k in after <==> k in before || (k == n && more)
    ensures |after| == |before| + if more then 1 else 0
  {
    if more {
      assert after == before + {n};
    } else {
      assert after == before;
    }
  }

  lemma {:induction false} VisitsAreEnds(g: Grid, walk: seq<direction>, c: Cell)
    ensures Visits(g, walk, c) == |Ends(g, walk, c)|
  {
    if walk == [] {
      assert Ends(g, walk, c) == {};
    } else {
      VisitsAreEnds(g, Init(walk), c);
      OneMoreEnd(g, walk, c);
    }
  }

  // The character of a cell: S where the walk ended, L in the middle, and else one for the number
  // of visits, up to twelve.
  lemma CharacterMeaning(size: byte, data: seq<byte>, x: nat, y: nat)
    requires x < Width(size) && y < Height(size)
    ensures var g, walk := SizeToDimensions(size), AllDirections(data);
            var p := Picture(g, walk);
            && |p| == Height(size) + 2 && |p[y + 1]| == Width(size) + 2
            && p[y + 1][x + 1]
               == if End(g, walk) == Cell(x, y) then 'S'
                  else if x == Width(size) / 2 && y == Height(size) / 2 then 'L'
                  else " .o-=/\\|^v<>O"[Min(12, |Ends(g, walk, Cell(x, y))|)]
  {
    Sizes(size);
    MarkMeaning(SizeToDimensions(size), AllDirections(data), Cell(x, y));
    PictureShape(size, data);
  }

  lemma MarkMeaning(g: Grid, walk: seq<direction>, c: Cell)
    ensures CHAR_SET[Mark(g, walk, c)]
         == if End(g, walk) == c then 'S'
            else if c == g.Center() then 'L'
            else " .o-=/\\|^v<>O"[Min(12, |Ends(g, walk, c)|)]
  {
    VisitsAreEnds(g, walk, c);
  }

  // ----- A picture -----

  // Four steps left and up, of which the last only goes left.
  lemma UpLeft(k: nat)
    requires k <= 4
    ensures End(Grid(9, 5), Zeros(k)) == Cell(4 - k, Max(0, 2 - k))
  {
    if k > 0 {
      UpLeft(k - 1);
      assert Init(Zeros(k)) == Zeros(k - 1);
    }
  }

  lemma {:induction false} UpLeftVisits(k: nat, c: Cell)
    requires k <= 4
    ensures Visits(Grid(9, 5), Zeros(k), c)
         == if 4 - k <= c.x <= 3 && c.y == Max(0, c.x - 2) then 1 else 0
  {
    if k > 0 {
      UpLeft(k);
      UpLeftVisits(k - 1, c);
      assert Init(Zeros(k)) == Zeros(k - 1);
    }
  }

  lemma UpLeftMark(x: nat, y: nat)
    requires x < 9 && y < 5
    ensures CHAR_SET[Mark(Grid(9, 5), Zeros(4), Cell(x, y))]
         == if x == 0 && y == 0 then 'S' else if x == 4 && y == 2 then 'L'
            else if (y == 0 && 1 <= x <= 2) || (y == 1 && x == 3) then '.'
            else ' '
  {
    UpLeft(4);
    UpLeftVisits(4, Cell(x, y));
  }

  function UpLeftRow(y: nat): string {
    if y == 0 then "S..      " else if y == 1 then "   .     " else if y == 2 then "    L    " else "         "
  }

  lemma UpLeftRowAt(x: nat, y: nat)
    requires x < 9 && y < 5
    ensures UpLeftRow(y)[x]
         == if x == 0 && y == 0 then 'S' else if x == 4 && y == 2 then 'L'
            else if (y == 0 && 1 <= x <= 2) || (y == 1 && x == 3) then '.'
            else ' '
  {
  }

  lemma UpLeftRows(y: nat)
    requires y < 5
    ensures Row(Grid(9, 5), Zeros(4), y) == ['\U{2502}'] + UpLeftRow(y) + ['\U{2502}']
  {
    assert |UpLeftRow(y)| == 9;
    forall x: nat | x < 9
      ensures CHAR_SET[Mark(Grid(9, 5), Zeros(4), Cell(x, y))] == UpLeftRow(y)[x]
    {
      UpLeftMark(x, y);
      UpLeftRowAt(x, y);
    }
  }

  // The small picture of the data of an empty signature, a single zero byte.
  lemma PictureExample()
    ensures var edge, line := ['\U{2502}'], seq(9, _ => '\U{2500}');
            Picture(SizeToDimensions(0), AllDirections([0]))
            == [['\U{256D}'] + line + ['\U{256E}'],
                edge + "S..      " + edge,
                edge + "   .     " + edge,
                edge + "    L    " + edge,
                edge + "         " + edge,
                edge + "         " + edge,
                ['\U{2570}'] + line + ['\U{256F}']]
  {
    ZeroDirections();
    UpLeftRows(0);
    UpLeftRows(1);
    UpLeftRows(2);
    UpLeftRows(3);
    UpLeftRows(4);
    assert Border(9) == seq(9, _ => '\U{2500}');
  }

  lemma ZeroDirections()
    ensures AllDirections([0]) == Zeros(4)
  {
    assert Init([0]) == [] && Last([0]) == 0;
    assert DirectionsFrom(0, 2) == [0, 0];
  }

  // Lines are joined by newlines, with none at the end.
  lemma JoinedExample(a: string, b: string, c: string)
    ensures JoinLines([]) == "" && JoinLines([a]) == a
    ensures JoinLines([a, b, c]) == a + "\n" + b + "\n" + c
  {
    assert Init([a, b, c]) == [a, b] && Init([a, b]) == [a];
  }
}

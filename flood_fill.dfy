/**
 * The bucket tool's flood fill (js/master-editor-complete.js, floodFill): an
 * explicit stack of positions, a set of visited positions, and the 4-connected
 * region of pixels whose colour lies within the tolerance of the seed's colour.
 */
module FloodFill {
  import opened Colors
  import opened Pixels
  import opened Arith

  /** A pixel position (x, y); the source keys it by the string "x,y", which is one-to-one. */
  type Point = (int, int)

  /** q is one of the four positions floodFill pushes after painting p. */
  predicate Adjacent(p: Point, q: Point)
  {
    q == (p.0 + 1, p.1) || q == (p.0 - 1, p.1) || q == (p.0, p.1 + 1) || q == (p.0, p.1 - 1)
  }

  /** All positions of a width × height canvas. */
  ghost function Canvas(w: int, h: int): set<Point>
  {
    set x, y | 0 <= x < w && 0 <= y < h :: (x, y)
  }

  /** p is on the canvas and its colour in s lies within the tolerance of the start colour. */
  predicate Matches(s: seq<int>, w: int, h: int, start: Rgb, tolerance: int, p: Point)
    requires |s| == w * h * 4
  {
    OnCanvas(w, h, p.0, p.1) && WithinTolerance(start, ColorAt(s, w, h, p.0, p.1), tolerance)
  }

  /** Every position of r reaches the seed through r, one neighbour at a time, each step lowering the rank. */
  ghost predicate Rooted(r: set<Point>, seed: Point, parent: map<Point, Point>, rank: map<Point, nat>)
  {
    forall p | p in r ::
      p in rank &&
      (p != seed ==> p in parent && parent[p] in r && parent[p] in rank && Adjacent(parent[p], p) && rank[parent[p]] < rank[p])
  }

  /**
   * r is the region floodFill paints: the pixels 4-connected to the seed
   * through pixels that match the seed's colour. Equivalently the least set
   * that holds the seed when the seed matches and is closed under stepping
   * to a matching neighbour (see RegionUnique).
   */
  ghost predicate IsFillRegion(s: seq<int>, w: int, h: int, start: Rgb, tolerance: int, seed: Point, r: set<Point>)
    requires |s| == w * h * 4
  {
    (forall p | p in r :: Matches(s, w, h, start, tolerance, p)) &&
    (Matches(s, w, h, start, tolerance, seed) ==> seed in r) &&
    (forall p, q | p in r && Adjacent(p, q) && Matches(s, w, h, start, tolerance, q) :: q in r) &&
    exists parent, rank :: Rooted(r, seed, parent, rank)
  }

  /** The four bytes a painted pixel gets: the fill colour, fully opaque. */
  function FillBytes(fill: Rgb): (b: seq<int>)
    ensures |b| == 4 && b[3] == 255
  {
    [fill.r, fill.g, fill.b, 255]
  }

  /** after is before with exactly the pixels of r painted with fill; every other byte is unchanged. */
  ghost predicate PaintedBy(before: seq<int>, after: seq<int>, w: int, h: int, r: set<Point>, fill: Rgb)
    requires |before| == w * h * 4 && |after| == w * h * 4
  {
    forall x, y, c | 0 <= x < w && 0 <= y < h && 0 <= c < 4 ::
      ByteAt(after, w, h, x, y, c) == if (x, y) in r then FillBytes(fill)[c] else ByteAt(before, w, h, x, y, c)
  }

  /** The three outcomes of floodFill, as one relation between the data before and after. */
  ghost predicate Filled(before: seq<int>, after: seq<int>, w: int, h: int, startX: real, startY: real,
                         fillColor: string, tolerance: int)
    requires |before| == w * h * 4
  {
    |after| == |before| &&
    var seed := (startX.Floor, startY.Floor);
    if !OnCanvas(w, h, seed.0, seed.1) then after == before
    else
      var start := ColorAt(before, w, h, seed.0, seed.1);
      if WithinTolerance(start, HexToRgb(fillColor), tolerance) then after == before
      else exists r :: IsFillRegion(before, w, h, start, tolerance, seed, r) && PaintedBy(before, after, w, h, r, HexToRgb(fillColor))
  }

  /**
   * floodFill(startX, startY, fillColor, tolerance) on the active layer's
   * data. The seed is the floored start position; off the canvas, or when
   * the fill colour already lies within the tolerance of the seed's colour,
   * nothing changes. Otherwise exactly the fill region is painted.
   */
  method Fill(data: array<int>, w: int, h: int, startX: real, startY: real, fillColor: string, tolerance: int)
    returns (ghost region: set<Point>)
    requires 0 <= w && 0 <= h && data.Length == w * h * 4
    modifies data
    ensures !OnCanvas(w, h, startX.Floor, startY.Floor) ==> data[..] == old(data[..])
    ensures OnCanvas(w, h, startX.Floor, startY.Floor) &&
      WithinTolerance(ColorAt(old(data[..]), w, h, startX.Floor, startY.Floor), HexToRgb(fillColor), tolerance)
      ==> data[..] == old(data[..])
    ensures OnCanvas(w, h, startX.Floor, startY.Floor) &&
      !WithinTolerance(ColorAt(old(data[..]), w, h, startX.Floor, startY.Floor), HexToRgb(fillColor), tolerance)
      ==> var start := ColorAt(old(data[..]), w, h, startX.Floor, startY.Floor);
          IsFillRegion(old(data[..]), w, h, start, tolerance, (startX.Floor, startY.Floor), region) &&
          PaintedBy(old(data[..]), data[..], w, h, region, HexToRgb(fillColor))
    ensures Filled(old(data[..]), data[..], w, h, startX, startY, fillColor, tolerance)
  {
    region := {};
    var startX, startY := startX.Floor, startY.Floor;
    if startX < 0 || startX >= w || startY < 0 || startY >= h {
      return;
    }
    FlatInRange(w, h, startX, startY);
    var startIndex := (startY * w + startX) * 4;
    var startColor := Rgb(data[startIndex], data[startIndex + 1], data[startIndex + 2]);
    var fill := HexToRgb(fillColor);
    if WithinTolerance(startColor, fill, tolerance) {
      return;
    }

    ghost var s0 := data[..];
    ghost var seed := (startX, startY);
    assert startColor == ColorAt(s0, w, h, startX, startY);
    var visited: set<Point> := {};
    var stack: seq<Point> := [(startX, startY)];
    ghost var parent: map<Point, Point> := map[];
    ghost var rank: map<Point, nat> := map[];
    while |stack| > 0
      invariant visited <= Canvas(w, h)
      invariant forall p | p in visited :: Matches(s0, w, h, startColor, tolerance, p)
      invariant data.Length == |s0| && PaintedBy(s0, data[..], w, h, visited, fill)
      invariant rank.Keys == visited && Rooted(visited, seed, parent, rank)
      invariant Frontier(s0, w, h, startColor, tolerance, seed, visited, stack)
      decreases Canvas(w, h) - visited, |stack|
    {
      var p := stack[|stack| - 1];
      ghost var pending := stack;
      stack := stack[..|stack| - 1];
      var x, y := p.0, p.1;
      if x < 0 || x >= w || y < 0 || y >= h || p in visited {
        Pop(s0, w, h, startColor, tolerance, seed, visited, pending);
        continue;
      }
      var currentColor := PixelColor(data, w, h, x, y);
      UnvisitedColour(s0, data[..], w, h, visited, fill, x, y);
      if WithinTolerance(startColor, currentColor, tolerance) {
        assert pending == stack + [p];
        parent, rank := Grow(s0, w, h, startColor, tolerance, seed, visited, pending, parent, rank);
        Visit(s0, w, h, startColor, tolerance, seed, visited, stack, p);
        assert p in Canvas(w, h);
        PaintPixel(data, w, h, x, y, fill, s0, visited);
        visited := visited + {p};
        stack := stack + Neighbours(p);
      } else {
        Pop(s0, w, h, startColor, tolerance, seed, visited, pending);
      }
    }
    Settled(s0, w, h, startColor, tolerance, seed, visited, parent, rank);
    region := visited;
  }

  /** The r, g, b bytes of pixel (x, y), read as floodFill reads them. */
  method PixelColor(data: array<int>, w: int, h: int, x: int, y: int) returns (c: Rgb)
    requires data.Length == w * h * 4 && 0 <= x < w && 0 <= y < h
    ensures c == ColorAt(data[..], w, h, x, y)
  {
    FlatInRange(w, h, x, y);
    var index := (y * w + x) * 4;
    c := Rgb(data[index], data[index + 1], data[index + 2]);
  }

  /** floodFill's "paint pixel" step: the fill colour with alpha 255 at (x, y). */
  method PaintPixel(data: array<int>, w: int, h: int, x: int, y: int, fill: Rgb, ghost s0: seq<int>, ghost r: set<Point>)
    requires data.Length == w * h * 4 && |s0| == data.Length && 0 <= x < w && 0 <= y < h
    requires PaintedBy(s0, data[..], w, h, r, fill)
    modifies data
    ensures PaintedBy(s0, data[..], w, h, r + {(x, y)}, fill)
  {
    FlatInRange(w, h, x, y);
    var index := (y * w + x) * 4;
    ghost var before := data[..];
    data[index] := fill.r;
    data[index + 1] := fill.g;
    data[index + 2] := fill.b;
    data[index + 3] := 255;
    assert data[..] == before[index := fill.r][index + 1 := fill.g][index + 2 := fill.b][index + 3 := 255];
    PaintStep(s0, before, data[..], w, h, r, fill, x, y);
  }

  /** Adding the popped, matching position to the visited set keeps it rooted at the seed. */
  lemma Grow(s: seq<int>, w: int, h: int, start: Rgb, tolerance: int, seed: Point, visited: set<Point>,
             stack: seq<Point>, parent: map<Point, Point>, rank: map<Point, nat>)
    returns (parent': map<Point, Point>, rank': map<Point, nat>)
    requires |s| == w * h * 4 && |stack| > 0 && stack[|stack| - 1] !in visited
    requires Frontier(s, w, h, start, tolerance, seed, visited, stack)
    requires rank.Keys == visited && Rooted(visited, seed, parent, rank)
    ensures rank'.Keys == visited + {stack[|stack| - 1]}
    ensures Rooted(visited + {stack[|stack| - 1]}, seed, parent', rank')
  {
    var p := stack[|stack| - 1];
    if p == seed {
      parent', rank' := parent, rank[p := 0];
    } else {
      var from :| from in visited && Adjacent(from, p);
      parent', rank' := parent[p := from], rank[p := rank[from] + 1];
    }
  }

  /** With the stack empty, the visited set is the fill region. */
  lemma Settled(s: seq<int>, w: int, h: int, start: Rgb, tolerance: int, seed: Point, visited: set<Point>,
                parent: map<Point, Point>, rank: map<Point, nat>)
    requires |s| == w * h * 4
    requires forall p | p in visited :: Matches(s, w, h, start, tolerance, p)
    requires Frontier(s, w, h, start, tolerance, seed, visited, []) && Rooted(visited, seed, parent, rank)
    ensures IsFillRegion(s, w, h, start, tolerance, seed, visited)
  {
  }

  /**
   * What the stack owes the visited set: every entry is the seed or a
   * neighbour of a visited pixel, and every matching neighbour of a visited
   * pixel (and the seed, when it matches) is visited or still on the stack.
   */
  ghost predicate Frontier(s: seq<int>, w: int, h: int, start: Rgb, tolerance: int, seed: Point,
                           visited: set<Point>, stack: seq<Point>)
    requires |s| == w * h * 4
  {
    (forall i | 0 <= i < |stack| :: stack[i] == seed || exists p :: p in visited && Adjacent(p, stack[i])) &&
    (seed in visited || seed in stack || !Matches(s, w, h, start, tolerance, seed)) &&
    (forall p, q | p in visited && Adjacent(p, q) :: q in visited || q in stack || !Matches(s, w, h, start, tolerance, q))
  }

  /** Popping a position that is off the canvas, visited, or does not match keeps the frontier. */
  lemma Pop(s: seq<int>, w: int, h: int, start: Rgb, tolerance: int, seed: Point, visited: set<Point>, stack: seq<Point>)
    requires |s| == w * h * 4 && |stack| > 0
    requires Frontier(s, w, h, start, tolerance, seed, visited, stack)
    requires stack[|stack| - 1] in visited || !Matches(s, w, h, start, tolerance, stack[|stack| - 1])
    ensures Frontier(s, w, h, start, tolerance, seed, visited, stack[..|stack| - 1])
  {
    var rest := stack[..|stack| - 1];
    assert forall q | q in stack :: q in rest || q == stack[|stack| - 1];
  }

  /** The four positions floodFill pushes after painting p, in its order. */
  function Neighbours(p: Point): (n: seq<Point>)
    ensures |n| == 4 && forall q :: q in n <==> Adjacent(p, q)
  {
    [(p.0 + 1, p.1), (p.0 - 1, p.1), (p.0, p.1 + 1), (p.0, p.1 - 1)]
  }

  /** Visiting the popped position p and pushing its four neighbours keeps the frontier. */
  lemma Visit(s: seq<int>, w: int, h: int, start: Rgb, tolerance: int, seed: Point, visited: set<Point>,
              rest: seq<Point>, p: Point)
    requires |s| == w * h * 4
    requires Frontier(s, w, h, start, tolerance, seed, visited, rest + [p])
    ensures Frontier(s, w, h, start, tolerance, seed, visited + {p}, rest + Neighbours(p))
  {
    var stack := rest + [p];
    var next := rest + Neighbours(p);
    assert forall q | q in stack :: q in rest || q == p;
    forall i | 0 <= i < |next|
      ensures next[i] == seed || exists v :: v in visited + {p} && Adjacent(v, next[i])
    {
      if i >= |rest| {
        assert next[i] in Neighbours(p);
      } else {
        assert next[i] == stack[i];
      }
    }
  }

  /** A pixel floodFill has not visited still has its original colour. */
  lemma UnvisitedColour(s0: seq<int>, s: seq<int>, w: int, h: int, r: set<Point>, fill: Rgb, x: int, y: int)
    requires |s0| == w * h * 4 && |s| == |s0| && 0 <= x < w && 0 <= y < h
    requires PaintedBy(s0, s, w, h, r, fill) && (x, y) !in r
    ensures ColorAt(s, w, h, x, y) == ColorAt(s0, w, h, x, y)
  {
    assert ByteAt(s, w, h, x, y, 0) == ByteAt(s0, w, h, x, y, 0);
    assert ByteAt(s, w, h, x, y, 1) == ByteAt(s0, w, h, x, y, 1);
    assert ByteAt(s, w, h, x, y, 2) == ByteAt(s0, w, h, x, y, 2);
  }

  /** Painting one more pixel keeps the relation between the original data and the current data. */
  lemma PaintStep(s0: seq<int>, before: seq<int>, after: seq<int>, w: int, h: int, r: set<Point>, fill: Rgb, x: int, y: int)
    requires |s0| == w * h * 4 && |before| == |s0| && 0 <= x < w && 0 <= y < h
    requires PaintedBy(s0, before, w, h, r, fill)
    requires var i := Flat(w, x, y) * 4;
      0 <= i && i + 3 < |before| &&
      after == before[i := fill.r][i + 1 := fill.g][i + 2 := fill.b][i + 3 := 255]
    ensures |after| == |s0| && PaintedBy(s0, after, w, h, r + {(x, y)}, fill)
  {
    forall x2, y2, c | 0 <= x2 < w && 0 <= y2 < h && 0 <= c < 4
      ensures ByteAt(after, w, h, x2, y2, c)
        == if (x2, y2) in r + {(x, y)} then FillBytes(fill)[c] else ByteAt(s0, w, h, x2, y2, c)
    {
      FlatInRange(w, h, x, y);
      FlatInRange(w, h, x2, y2);
      if (x2, y2) != (x, y) {
        assert Flat(w, x2, y2) != Flat(w, x, y);
      }
    }
  }

  // ---------- properties of the fill region ----------

  /** Every position of a rooted set reaches the seed: a rooted set is empty or holds the seed. */
  lemma {:induction false} ReachesSeed(r: set<Point>, seed: Point, parent: map<Point, Point>, rank: map<Point, nat>, p: Point)
    requires Rooted(r, seed, parent, rank) && p in r
    ensures seed in r
    decreases rank[p]
  {
    if p != seed {
      ReachesSeed(r, seed, parent, rank, parent[p]);
    }
  }

  /** The fill region lies inside every set that holds the matching seed and is closed under matching neighbours. */
  lemma {:induction false} RegionLeast(s: seq<int>, w: int, h: int, start: Rgb, tolerance: int, seed: Point,
                                       r: set<Point>, c: set<Point>)
    requires |s| == w * h * 4 && IsFillRegion(s, w, h, start, tolerance, seed, r)
    requires Matches(s, w, h, start, tolerance, seed) ==> seed in c
    requires forall p, q | p in c && Adjacent(p, q) && Matches(s, w, h, start, tolerance, q) :: q in c
    ensures r <= c
  {
    var parent, rank :| Rooted(r, seed, parent, rank);
    forall p | p in r
      ensures p in c
    {
      LeastStep(s, w, h, start, tolerance, seed, r, c, parent, rank, p);
    }
  }

  lemma {:induction false} LeastStep(s: seq<int>, w: int, h: int, start: Rgb, tolerance: int, seed: Point,
                                     r: set<Point>, c: set<Point>, parent: map<Point, Point>, rank: map<Point, nat>, p: Point)
    requires |s| == w * h * 4 && (forall q | q in r :: Matches(s, w, h, start, tolerance, q))
    requires Rooted(r, seed, parent, rank) && p in r
    requires Matches(s, w, h, start, tolerance, seed) ==> seed in c
    requires forall a, b | a in c && Adjacent(a, b) && Matches(s, w, h, start, tolerance, b) :: b in c
    ensures p in c
    decreases rank[p]
  {
    if p != seed {
      LeastStep(s, w, h, start, tolerance, seed, r, c, parent, rank, parent[p]);
      assert Matches(s, w, h, start, tolerance, p);
    }
  }

  /** There is one fill region per image, seed, start colour and tolerance. */
  lemma RegionUnique(s: seq<int>, w: int, h: int, start: Rgb, tolerance: int, seed: Point, r1: set<Point>, r2: set<Point>)
    requires |s| == w * h * 4
    requires IsFillRegion(s, w, h, start, tolerance, seed, r1) && IsFillRegion(s, w, h, start, tolerance, seed, r2)
    ensures r1 == r2
  {
    RegionLeast(s, w, h, start, tolerance, seed, r1, r2);
    RegionLeast(s, w, h, start, tolerance, seed, r2, r1);
  }

  /** The region is empty exactly when the seed itself does not match, e.g. under a negative tolerance. */
  lemma RegionEmpty(s: seq<int>, w: int, h: int, start: Rgb, tolerance: int, seed: Point, r: set<Point>)
    requires |s| == w * h * 4 && IsFillRegion(s, w, h, start, tolerance, seed, r)
    ensures r == {} <==> !Matches(s, w, h, start, tolerance, seed)
  {
    if r != {} {
      var p :| p in r;
      var parent, rank :| Rooted(r, seed, parent, rank);
      ReachesSeed(r, seed, parent, rank, p);
    }
  }

  /** Painting no pixel leaves every byte as it was. */
  lemma PaintedNothing(before: seq<int>, after: seq<int>, w: int, h: int, fill: Rgb)
    requires 0 <= w && 0 <= h && |before| == w * h * 4 && |after| == w * h * 4
    requires PaintedBy(before, after, w, h, {}, fill)
    ensures after == before
  {
    forall i | 0 <= i < |before|
      ensures after[i] == before[i]
    {
      var n := i / 4;
      CoordsOf(w, h, n);
      assert ByteAt(after, w, h, n % w, n / w, i % 4) == ByteAt(before, w, h, n % w, n / w, i % 4);
    }
  }

  /**
   * A second bucket fill at the same point with the same colour and
   * tolerance changes nothing: with a tolerance of 0 or more the seed now
   * has the fill colour, so floodFill returns early; with a negative
   * tolerance the first fill already changed nothing.
   */
  lemma FillTwice(s0: seq<int>, s1: seq<int>, w: int, h: int, seed: Point, fill: Rgb, tolerance: int, r: set<Point>)
    requires 0 <= w && 0 <= h && |s0| == w * h * 4 && |s1| == |s0| && OnCanvas(w, h, seed.0, seed.1)
    requires IsFillRegion(s0, w, h, ColorAt(s0, w, h, seed.0, seed.1), tolerance, seed, r)
    requires PaintedBy(s0, s1, w, h, r, fill)
    ensures 0 <= tolerance ==> ColorAt(s1, w, h, seed.0, seed.1) == fill && WithinTolerance(ColorAt(s1, w, h, seed.0, seed.1), fill, tolerance)
    ensures tolerance < 0 ==> r == {} && s1 == s0
  {
    var start := ColorAt(s0, w, h, seed.0, seed.1);
    ToleranceZeroIsEquality(start, start);
    if 0 <= tolerance {
      assert WithinTolerance(start, start, tolerance);
      assert seed in r;
      assert ByteAt(s1, w, h, seed.0, seed.1, 0) == fill.r;
      assert ByteAt(s1, w, h, seed.0, seed.1, 1) == fill.g;
      assert ByteAt(s1, w, h, seed.0, seed.1, 2) == fill.b;
      ToleranceZeroIsEquality(fill, fill);
    } else {
      RegionEmpty(s0, w, h, start, tolerance, seed, r);
      PaintedNothing(s0, s1, w, h, fill);
    }
  }
}

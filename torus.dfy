// Wrap-around arithmetic on the W x H arena (utils.py): positions are integer
// points and every coordinate is reduced modulo the arena size.
module Torus {
  import opened Globals

  datatype Pos = Pos(x: int, y: int)

  function Add(a: Pos, b: Pos): Pos { Pos(a.x + b.x, a.y + b.y) }

  function Scale(v: Pos, k: int): Pos { Pos(v.x * k, v.y * k) }

  /** Raw Euclidean proximity: the distance between a and b is below r.
      For r >= 0 this is the same as sqrt(dx^2 + dy^2) < r, stated without a
      square root. It does not look across the arena's edges. */
  predicate WithinRadius(a: Pos, b: Pos, r: int)
  {
    (a.x - b.x) * (a.x - b.x) + (a.y - b.y) * (a.y - b.y) < r * r
  }

  /** Both coordinates reduced into [0, W) x [0, H). Dafny's % with a positive
      divisor is never negative, like Python's. */
  function Wrap(p: Pos): (r: Pos)
    ensures 0 <= r.x < W && 0 <= r.y < H
    ensures (p.x - r.x) % W == 0 && (p.y - r.y) % H == 0
  {
    Pos(p.x % W, p.y % H)
  }

  /** A point already inside the arena that is congruent to p is Wrap(p):
      Wrap is the only such point. */
  lemma WrapUnique(p: Pos, q: Pos)
    requires 0 <= q.x < W && 0 <= q.y < H
    requires (p.x - q.x) % W == 0 && (p.y - q.y) % H == 0
    ensures q == Wrap(p)
  {
    ModUnique(p.x, q.x, W);
    ModUnique(p.y, q.y, H);
  }

  lemma ModUnique(a: int, b: int, m: int)
    requires m > 0 && 0 <= b < m && (a - b) % m == 0
    ensures a % m == b
  {
    var k := (a - b) / m;
    assert a - b == k * m;
    assert a == k * m + b;
    DivModUnique(a, k, b, m);
  }

  lemma DivModUnique(a: int, k: int, b: int, m: int)
    requires m > 0 && 0 <= b < m && a == k * m + b
    ensures a % m == b
  {
    var q, r := a / m, a % m;
    assert a == q * m + r && 0 <= r < m;
    assert (k - q) * m == r - b;
    if k - q >= 1 {
      MulAtLeast(k - q, m);
    } else if q - k >= 1 {
      MulAtLeast(q - k, m);
    }
  }

  lemma MulAtLeast(a: int, m: int)
    requires a >= 1 && m > 0
    ensures a * m >= m
  {
    assert a * m == (a - 1) * m + m;
    if a > 1 { MulAtLeast(a - 1, m); }
  }

  /** Wrapping twice is wrapping once. */
  lemma WrapIdempotent(p: Pos)
    ensures Wrap(Wrap(p)) == Wrap(p)
  {
    var q := Wrap(p);
    assert (q.x - q.x) % W == 0 && (q.y - q.y) % H == 0;
    WrapUnique(q, q);
  }

  /** The displacement from `from` to `to` that crosses an edge when that is
      shorter: each component lies in [-dim/2, dim/2). */
  function ShortestVector(from: Pos, to: Pos): (r: Pos)
    ensures -W / 2 <= r.x < W / 2 && -H / 2 <= r.y < H / 2
    ensures (from.x + r.x - to.x) % W == 0 && (from.y + r.y - to.y) % H == 0
  {
    Pos((to.x - from.x + W / 2) % W - W / 2, (to.y - from.y + H / 2) % H - H / 2)
  }

  /** No displacement that reaches `to` along x is shorter than the one
      ShortestVector picks; likewise along y. */
  lemma ShortestVectorMinimal(from: Pos, to: Pos, dx: int, dy: int)
    requires (from.x + dx - to.x) % W == 0 && (from.y + dy - to.y) % H == 0
    ensures Abs(ShortestVector(from, to).x) <= Abs(dx)
    ensures Abs(ShortestVector(from, to).y) <= Abs(dy)
  {
    var r := ShortestVector(from, to);
    var px, qx := (from.x + r.x - to.x) / W, (from.x + dx - to.x) / W;
    var py, qy := (from.y + r.y - to.y) / H, (from.y + dy - to.y) / H;
    assert dx == r.x + (qx - px) * W;
    assert dy == r.y + (qy - py) * H;
    MinimalOnAxis(r.x, dx, W, qx - px);
    MinimalOnAxis(r.y, dy, H, qy - py);
  }

  function Abs(a: int): int { if a < 0 then -a else a }

  lemma MinimalOnAxis(r: int, d: int, m: int, k: int)
    requires m > 0 && m % 2 == 0
    requires -m / 2 <= r < m / 2 && d == r + k * m
    ensures Abs(r) <= Abs(d)
  {
    if k >= 1 {
      MulAtLeast(k, m);
    } else if k <= -1 {
      MulAtLeast(-k, m);
      assert (-k) * m == r - d;
    }
  }

  /** From a point to itself the shortest displacement is zero. */
  lemma ShortestVectorToSelf(p: Pos)
    ensures ShortestVector(p, p) == Pos(0, 0)
  {
  }

  /** From (10, 10) to (630, 10) the short way goes 20 to the left, across
      the x = 0 edge. */
  lemma ShortestVectorAcrossEdge()
    ensures ShortestVector(Pos(10, 10), Pos(630, 10)) == Pos(-20, 0)
  {
  }

  /** A mutable 2D vector, for the operations that change a position in place. */
  class Vec2 {
    var x: int
    var y: int

    constructor (x0: int, y0: int)
      ensures x == x0 && y == y0
    {
      x, y := x0, y0;
    }

    function Value(): Pos
      reads this
    {
      Pos(x, y)
    }
  }

  /** Replaces both coordinates of p by those of Wrap(p). */
  method WrapInPlace(p: Vec2)
    modifies p
    ensures p.Value() == Wrap(old(p.Value()))
  {
    var wrapped := Wrap(p.Value());
    p.x := wrapped.x;
    p.y := wrapped.y;
  }
}

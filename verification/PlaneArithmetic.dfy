/** Small facts about products and quotients of reals, for the plane geometry of the mineral cells. */
module PlaneArithmetic {
  lemma Regroup(a: real, b: real, s: real, t: real, o: real, p: real, q: real, z: real)
    requires z == a * o + b * p && p == s * o + t * q
    ensures z == (a + b * s) * o + (b * t) * q
  {
    assert b * p == b * (s * o) + b * (t * q);
  }

  lemma Weigh(f: real, g: real, k: real, p: real, q: real, v: real)
    requires k != 0.0 && v * k == p * f + q * g
    ensures v == (f / k) * p + (g / k) * q
  {
    assert f == (f / k) * k && g == (g / k) * k;
    var s, t := f / k, g / k;
    assert v * k == p * (s * k) + q * (t * k);
    assert v * k == (s * p + t * q) * k;
    Cancel(v, s * p + t * q, k);
  }

  lemma Cancel(a: real, b: real, k: real)
    requires k != 0.0 && a * k == b * k
    ensures a == b
  {
    assert (a - b) * k == 0.0;
  }

  lemma Quotients(f: real, k: real)
    requires f >= 0.0 && k > 0.0
    ensures f / k >= 0.0 && (f > 0.0 ==> f / k > 0.0)
  {
  }

  lemma Identity(ux: real, uy: real, vx: real, vy: real, wx: real, wy: real)
    ensures vx * (ux * wy - uy * wx) == ux * (vx * wy - vy * wx) + wx * (ux * vy - uy * vx)
    ensures vy * (ux * wy - uy * wx) == uy * (vx * wy - vy * wx) + wy * (ux * vy - uy * vx)
  {
  }

  lemma Dot(nx: real, ny: real, ux: real, uy: real, wx: real, wy: real, vx: real, vy: real, k: real, a: real, b: real)
    requires vx * k == ux * a + wx * b && vy * k == uy * a + wy * b
    ensures (nx * vx + ny * vy) * k == (nx * ux + ny * uy) * a + (nx * wx + ny * wy) * b
  {
    assert nx * (vx * k) == nx * (ux * a) + nx * (wx * b);
    assert ny * (vy * k) == ny * (uy * a) + ny * (wy * b);
  }

  /** The sign of the widened turn. */
  lemma Turn(gu: real, gv: real, gw: real, k: real, a: real, b: real)
    requires gu > 0.0 && gv > 0.0 && gw > 0.0 && a >= 0.0 && b >= 0.0
    requires gv * k == gu * a + gw * b
    ensures k >= 0.0
    ensures k == 0.0 ==> a == 0.0 && b == 0.0
  {
    assert gu * a >= 0.0 && gw * b >= 0.0;
    assert a > 0.0 ==> gu * a > 0.0;
    assert b > 0.0 ==> gw * b > 0.0;
  }

  lemma SameRay(nx: real, ny: real, ux: real, uy: real, vx: real, vy: real)
    requires ux * vy - uy * vx == 0.0
    ensures vx * (nx * ux + ny * uy) == ux * (nx * vx + ny * vy)
    ensures vy * (nx * ux + ny * uy) == uy * (nx * vx + ny * vy)
  {
    assert ux * vy == uy * vx;
    assert vx * (ny * uy) == ny * (uy * vx);
    assert ux * (ny * vy) == ny * (ux * vy);
    assert vy * (nx * ux) == nx * (ux * vy);
    assert uy * (nx * vx) == nx * (uy * vx);
  }

  function Along(nx: real, ny: real, ux: real, uy: real): real {
    nx * ux + ny * uy
  }

  function Winding(ux: real, uy: real, vx: real, vy: real): real {
    ux * vy - uy * vx
  }

  lemma Spanned(ux: real, uy: real, vx: real, vy: real, wx: real, wy: real) returns (s: real, t: real)
    requires Winding(ux, uy, wx, wy) > 0.0 && Winding(ux, uy, vx, vy) >= 0.0 && Winding(vx, vy, wx, wy) >= 0.0
    ensures s >= 0.0 && t >= 0.0 && vx == s * ux + t * wx && vy == s * uy + t * wy
  {
    var k, a, b := ux * wy - uy * wx, vx * wy - vy * wx, ux * vy - uy * vx;
    Identity(ux, uy, vx, vy, wx, wy);
    s, t := a / k, b / k;
    Weigh(a, b, k, ux, wx, vx);
    Weigh(a, b, k, uy, wy, vy);
    Quotients(a, k);
    Quotients(b, k);
  }

  lemma Stretched(nx: real, ny: real, ux: real, uy: real, vx: real, vy: real) returns (s: real)
    requires Along(nx, ny, ux, uy) > 0.0 && Along(nx, ny, vx, vy) > 0.0 && Winding(ux, uy, vx, vy) == 0.0
    ensures s >= 0.0 && vx == s * ux && vy == s * uy
  {
    var gu, gv := nx * ux + ny * uy, nx * vx + ny * vy;
    s := gv / gu;
    SameRay(nx, ny, ux, uy, vx, vy);
    Weigh(gv, 0.0, gu, ux, 0.0, vx);
    Weigh(gv, 0.0, gu, uy, 0.0, vy);
    Quotients(gv, gu);
  }

  lemma StillTurns(nx: real, ny: real, ux: real, uy: real, vx: real, vy: real, wx: real, wy: real)
    requires Along(nx, ny, ux, uy) > 0.0 && Along(nx, ny, vx, vy) > 0.0 && Along(nx, ny, wx, wy) > 0.0
    requires Winding(ux, uy, vx, vy) >= 0.0 && Winding(vx, vy, wx, wy) >= 0.0
    ensures Winding(ux, uy, wx, wy) >= 0.0
    ensures Winding(ux, uy, wx, wy) == 0.0 ==> Winding(ux, uy, vx, vy) == 0.0
  {
    var k, a, b := ux * wy - uy * wx, vx * wy - vy * wx, ux * vy - uy * vx;
    Identity(ux, uy, vx, vy, wx, wy);
    Dot(nx, ny, ux, uy, wx, wy, vx, vy, k, a, b);
    Turn(nx * ux + ny * uy, nx * vx + ny * vy, nx * wx + ny * wy, k, a, b);
  }

  /** Of three directions on one side of a line, each turning left from the one before, the middle one is a
      non-negative mix of the outer two. */
  lemma Between(nx: real, ny: real, ux: real, uy: real, vx: real, vy: real, wx: real, wy: real)
    returns (s: real, t: real)
    requires Along(nx, ny, ux, uy) > 0.0 && Along(nx, ny, vx, vy) > 0.0 && Along(nx, ny, wx, wy) > 0.0
    requires Winding(ux, uy, vx, vy) >= 0.0 && Winding(vx, vy, wx, wy) >= 0.0
    ensures s >= 0.0 && t >= 0.0 && vx == s * ux + t * wx && vy == s * uy + t * wy
    ensures Winding(ux, uy, wx, wy) >= 0.0
  {
    StillTurns(nx, ny, ux, uy, vx, vy, wx, wy);
    if Winding(ux, uy, wx, wy) > 0.0 {
      s, t := Spanned(ux, uy, vx, vy, wx, wy);
    } else {
      s := Stretched(nx, ny, ux, uy, vx, vy);
      t := 0.0;
    }
  }

  lemma NotNegative(x: real, y: real)
    requires x >= 0.0 && y >= 0.0
    ensures x * y >= 0.0
  {
  }

  lemma Positive(x: real, y: real)
    requires x > 0.0 && y > 0.0
    ensures x * y > 0.0
  {
  }

  lemma Negative(x: real, y: real)
    requires x > 0.0 && y < 0.0
    ensures x * y < 0.0
  {
  }

  function Times(x: real, y: real): real {
    x * y
  }

  /** The squared length of a vector. */
  function Norm(u: real, v: real): real {
    Times(u, u) + Times(v, v)
  }

  lemma SameSigns(x: real, y: real)
    requires (x > 0.0 && y > 0.0) || (x < 0.0 && y < 0.0)
    ensures Times(x, y) > 0.0
  {
  }

  lemma SquareIsPositive(x: real)
    ensures Times(x, x) >= 0.0 && (x != 0.0 ==> Times(x, x) > 0.0)
  {
    if x != 0.0 { SameSigns(x, x); } else { assert Times(0.0, x) == 0.0; }
  }

  lemma NormIsPositive(u: real, v: real)
    requires u != 0.0 || v != 0.0
    ensures Norm(u, v) > 0.0
  {
    SquareIsPositive(u);
    SquareIsPositive(v);
  }

  lemma SplitFirst(a: real, k: real, t: real, p: real, q: real, x: real, z: real)
    requires z == a * p + (k * t) * q && x == p + (q - p) * t
    ensures z == (a - k * (1.0 - t)) * p + k * x
  {
    assert k * x == (k * (1.0 - t)) * p + (k * t) * q;
  }

  lemma SplitSecond(k: real, b: real, t: real, p: real, q: real, x: real, z: real)
    requires z == (k * (1.0 - t)) * p + b * q && x == p + (q - p) * t
    ensures z == k * x + (b - k * t) * q
  {
    assert k * x == (k * (1.0 - t)) * p + (k * t) * q;
  }

  lemma Share(b: real, a: real, t: real, u: real) returns (k: real)
    requires b >= 0.0 && t > 0.0 && a * t >= b * u
    ensures b == k * t && k >= 0.0 && a - k * u >= 0.0
  {
    Quotients(b, t);
    k := b / t;
    assert b * u == (k * u) * t;
    Factor(a - k * u, t);
  }

  lemma Factor(x: real, t: real)
    requires t > 0.0 && x * t >= 0.0
    ensures x >= 0.0
  {
  }
}

/** Exact-real stand-ins for the engine's `Vector3` and `Color` values. */
module Geometry {

  /** A point or offset in the cell's local space; `y` is the vertical axis. */
  datatype Vec3 = Vec3(x: real, y: real, z: real)

  function Add(a: Vec3, b: Vec3): Vec3 {
    Vec3(a.x + b.x, a.y + b.y, a.z + b.z)
  }

  function Scale(a: Vec3, k: real): Vec3 {
    Vec3(a.x * k, a.y * k, a.z * k)
  }

  function Neg(a: Vec3): Vec3 {
    Vec3(-a.x, -a.y, -a.z)
  }

  /** An RGBA colour. */
  datatype Color = Color(r: real, g: real, b: real, a: real)

  function Clamp01(t: real): (c: real)
    ensures 0.0 <= c <= 1.0
    ensures 0.0 <= t <= 1.0 ==> c == t
  {
    if t < 0.0 then 0.0 else if t > 1.0 then 1.0 else t
  }

  /** The engine's colour interpolation: the parameter is clamped to [0, 1]
      first, so the result always lies between the two colours. */
  function ColorLerp(a: Color, b: Color, t: real): (c: Color)
    ensures t <= 0.0 ==> c == a
    ensures t >= 1.0 ==> c == b
  {
    var s := Clamp01(t);
    Color(a.r + (b.r - a.r) * s, a.g + (b.g - a.g) * s,
          a.b + (b.b - a.b) * s, a.a + (b.a - a.a) * s)
  }

  /** Splitting a vector into two shares that add up to one gives it back. */
  lemma ScaleSplit(a: Vec3, s: real, t: real)
    requires s + t == 1.0
    ensures Add(Scale(a, s), Scale(a, t)) == a
  {
    assert a.x * s + a.x * t == a.x * (s + t);
    assert a.y * s + a.y * t == a.y * (s + t);
    assert a.z * s + a.z * t == a.z * (s + t);
  }

  /** Scaling commutes with mirroring through the origin. */
  lemma ScaleNeg(a: Vec3, k: real)
    ensures Scale(Neg(a), k) == Neg(Scale(a, k))
  {
  }

  lemma NegNeg(a: Vec3)
    ensures Neg(Neg(a)) == a
  {
  }

  /** Going the share `s` out along `f` and then the share `t` of `f + g`
      ends where going all of `f + g` and then back the share `s` of `g` ends;
      likewise with the roles of `f` and `g` exchanged. */
  lemma BridgeAlgebra(f: Vec3, g: Vec3, s: real, t: real)
    requires s + t == 1.0
    ensures Add(Scale(f, s), Scale(Add(f, g), t)) == Add(Add(f, g), Scale(Neg(g), s))
    ensures Add(Scale(g, s), Scale(Add(f, g), t)) == Add(Add(f, g), Scale(Neg(f), s))
  {
    assert f.x * s + (f.x + g.x) * t == f.x * (s + t) + g.x * t;
    assert f.y * s + (f.y + g.y) * t == f.y * (s + t) + g.y * t;
    assert f.z * s + (f.z + g.z) * t == f.z * (s + t) + g.z * t;
    assert g.x * t == g.x - g.x * s && g.y * t == g.y - g.y * s && g.z * t == g.z - g.z * s;
    assert f.x * t == f.x - f.x * s && f.y * t == f.y - f.y * s && f.z * t == f.z - f.z * s;
  }

  /** Scaling the sum of two mirrored offsets mirrors the scaled sum. */
  lemma ScaleAddNeg(a: Vec3, b: Vec3, k: real)
    ensures Scale(Add(Neg(a), Neg(b)), k) == Neg(Scale(Add(a, b), k))
  {
  }
}

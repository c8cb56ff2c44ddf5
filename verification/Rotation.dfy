/** Quaternions and rotations over the exact reals. */
module Rotation {

  datatype Quaternion = Quaternion(w: real, x: real, y: real, z: real) {
    function Product(q: Quaternion): Quaternion {
      Quaternion(
        w * q.w - x * q.x - y * q.y - z * q.z,
        w * q.x + x * q.w + y * q.z - z * q.y,
        w * q.y - x * q.z + y * q.w + z * q.x,
        w * q.z + x * q.y - y * q.x + z * q.w)
    }

    function Conjugate(): Quaternion { Quaternion(w, -x, -y, -z) }

    /** The square of the magnitude. */
    function Norm(): real { w * w + x * x + y * y + z * z }
  }

  const ONE := Quaternion(1.0, 0.0, 0.0, 0.0)

  datatype Vector = Vector(x: real, y: real, z: real) {
    function Pure(): Quaternion { Quaternion(0.0, x, y, z) }

    function Norm(): real { x * x + y * y + z * z }
  }

  /** The quaternion that the program computes when it rotates `v`: q v q*. */
  function Sandwich(q: Quaternion, v: Vector): Quaternion {
    q.Product(v.Pure()).Product(q.Conjugate())
  }

  function Rotated(q: Quaternion, v: Vector): Vector {
    var p := Sandwich(q, v);
    Vector(p.x, p.y, p.z)
  }

  // ---- The algebra ----
  //
  // Each law is an identity between polynomials in the components, stated for numbers first.

  /** `s` is the product of `p` and `q`, component by component. */
  predicate IsProduct(p: Quaternion, q: Quaternion, s: Quaternion) {
    && s.w == p.w * q.w - p.x * q.x - p.y * q.y - p.z * q.z
    && s.x == p.w * q.x + p.x * q.w + p.y * q.z - p.z * q.y
    && s.y == p.w * q.y - p.x * q.z + p.y * q.w + p.z * q.x
    && s.z == p.w * q.z + p.x * q.y - p.y * q.x + p.z * q.w
  }

  const I := Quaternion(0.0, 1.0, 0.0, 0.0)
  const J := Quaternion(0.0, 0.0, 1.0, 0.0)
  const K := Quaternion(0.0, 0.0, 0.0, 1.0)

  /** The units multiply as Hamilton's do. */
  lemma Units()
    ensures I.Product(I) == J.Product(J) == K.Product(K) == Quaternion(-1.0, 0.0, 0.0, 0.0)
    ensures I.Product(J) == K && J.Product(K) == I && K.Product(I) == J
  {}

  lemma ProductIs(p: Quaternion, q: Quaternion, s: Quaternion)
    ensures IsProduct(p, q, s) <==> s == p.Product(q)
  {}

  lemma AssociativeW(
    a: real, b: real, c: real, d: real, e: real, f: real, g: real, h: real, i: real, j: real, k: real, l: real,
    sw: real, sx: real, sy: real, sz: real, tw: real, tx: real, ty: real, tz: real)
    requires sw == a * e - b * f - c * g - d * h
    requires sx == a * f + b * e + c * h - d * g
    requires sy == a * g - b * h + c * e + d * f
    requires sz == a * h + b * g - c * f + d * e
    requires tw == e * i - f * j - g * k - h * l
    requires tx == e * j + f * i + g * l - h * k
    requires ty == e * k - f * l + g * i + h * j
    requires tz == e * l + f * k - g * j + h * i
    ensures sw * i - sx * j - sy * k - sz * l == a * tw - b * tx - c * ty - d * tz
  {}

  lemma AssociativeX(
    a: real, b: real, c: real, d: real, e: real, f: real, g: real, h: real, i: real, j: real, k: real, l: real,
    sw: real, sx: real, sy: real, sz: real, tw: real, tx: real, ty: real, tz: real)
    requires sw == a * e - b * f - c * g - d * h
    requires sx == a * f + b * e + c * h - d * g
    requires sy == a * g - b * h + c * e + d * f
    requires sz == a * h + b * g - c * f + d * e
    requires tw == e * i - f * j - g * k - h * l
    requires tx == e * j + f * i + g * l - h * k
    requires ty == e * k - f * l + g * i + h * j
    requires tz == e * l + f * k - g * j + h * i
    ensures sw * j + sx * i + sy * l - sz * k == a * tx + b * tw + c * tz - d * ty
  {}

  lemma AssociativeY(
    a: real, b: real, c: real, d: real, e: real, f: real, g: real, h: real, i: real, j: real, k: real, l: real,
    sw: real, sx: real, sy: real, sz: real, tw: real, tx: real, ty: real, tz: real)
    requires sw == a * e - b * f - c * g - d * h
    requires sx == a * f + b * e + c * h - d * g
    requires sy == a * g - b * h + c * e + d * f
    requires sz == a * h + b * g - c * f + d * e
    requires tw == e * i - f * j - g * k - h * l
    requires tx == e * j + f * i + g * l - h * k
    requires ty == e * k - f * l + g * i + h * j
    requires tz == e * l + f * k - g * j + h * i
    ensures sw * k - sx * l + sy * i + sz * j == a * ty - b * tz + c * tw + d * tx
  {}

  lemma AssociativeZ(
    a: real, b: real, c: real, d: real, e: real, f: real, g: real, h: real, i: real, j: real, k: real, l: real,
    sw: real, sx: real, sy: real, sz: real, tw: real, tx: real, ty: real, tz: real)
    requires sw == a * e - b * f - c * g - d * h
    requires sx == a * f + b * e + c * h - d * g
    requires sy == a * g - b * h + c * e + d * f
    requires sz == a * h + b * g - c * f + d * e
    requires tw == e * i - f * j - g * k - h * l
    requires tx == e * j + f * i + g * l - h * k
    requires ty == e * k - f * l + g * i + h * j
    requires tz == e * l + f * k - g * j + h * i
    ensures sw * l + sx * k - sy * j + sz * i == a * tz + b * ty - c * tx + d * tw
  {}

  lemma RegroupW(p: Quaternion, q: Quaternion, r: Quaternion, s: Quaternion, t: Quaternion)
    requires IsProduct(p, q, s) && IsProduct(q, r, t)
    ensures s.w * r.w - s.x * r.x - s.y * r.y - s.z * r.z
      == p.w * t.w - p.x * t.x - p.y * t.y - p.z * t.z
  {
    AssociativeW(p.w, p.x, p.y, p.z, q.w, q.x, q.y, q.z, r.w, r.x, r.y, r.z,
                 s.w, s.x, s.y, s.z, t.w, t.x, t.y, t.z);
  }

  lemma RegroupX(p: Quaternion, q: Quaternion, r: Quaternion, s: Quaternion, t: Quaternion)
    requires IsProduct(p, q, s) && IsProduct(q, r, t)
    ensures s.w * r.x + s.x * r.w + s.y * r.z - s.z * r.y
      == p.w * t.x + p.x * t.w + p.y * t.z - p.z * t.y
  {
    AssociativeX(p.w, p.x, p.y, p.z, q.w, q.x, q.y, q.z, r.w, r.x, r.y, r.z,
                 s.w, s.x, s.y, s.z, t.w, t.x, t.y, t.z);
  }

  lemma RegroupY(p: Quaternion, q: Quaternion, r: Quaternion, s: Quaternion, t: Quaternion)
    requires IsProduct(p, q, s) && IsProduct(q, r, t)
    ensures s.w * r.y - s.x * r.z + s.y * r.w + s.z * r.x
      == p.w * t.y - p.x * t.z + p.y * t.w + p.z * t.x
  {
    AssociativeY(p.w, p.x, p.y, p.z, q.w, q.x, q.y, q.z, r.w, r.x, r.y, r.z,
                 s.w, s.x, s.y, s.z, t.w, t.x, t.y, t.z);
  }

  lemma RegroupZ(p: Quaternion, q: Quaternion, r: Quaternion, s: Quaternion, t: Quaternion)
    requires IsProduct(p, q, s) && IsProduct(q, r, t)
    ensures s.w * r.z + s.x * r.y - s.y * r.x + s.z * r.w
      == p.w * t.z + p.x * t.y - p.y * t.x + p.z * t.w
  {
    AssociativeZ(p.w, p.x, p.y, p.z, q.w, q.x, q.y, q.z, r.w, r.x, r.y, r.z,
                 s.w, s.x, s.y, s.z, t.w, t.x, t.y, t.z);
  }

  lemma AssociativeComponents(p: Quaternion, q: Quaternion, r: Quaternion, s: Quaternion, t: Quaternion, u: Quaternion)
    requires IsProduct(p, q, s) && IsProduct(q, r, t) && IsProduct(s, r, u)
    ensures IsProduct(p, t, u)
  {
    RegroupW(p, q, r, s, t);
    RegroupX(p, q, r, s, t);
    RegroupY(p, q, r, s, t);
    RegroupZ(p, q, r, s, t);
  }

  lemma ProductAssociative(p: Quaternion, q: Quaternion, r: Quaternion)
    ensures p.Product(q).Product(r) == p.Product(q.Product(r))
  {
    hide IsProduct, Quaternion.Product;
    var s, t := p.Product(q), q.Product(r);
    var u := s.Product(r);
    ProductIs(p, q, s);
    ProductIs(q, r, t);
    ProductIs(s, r, u);
    AssociativeComponents(p, q, r, s, t, u);
    ProductIs(p, t, u);
  }

  lemma ConjugateComponents(
    a: real, b: real, c: real, d: real, e: real, f: real, g: real, h: real,
    b': real, c': real, d': real, f': real, g': real, h': real)
    requires b' == -b && c' == -c && d' == -d && f' == -f && g' == -g && h' == -h
    ensures a * e - b * f - c * g - d * h == e * a - f' * b' - g' * c' - h' * d'
    ensures -(a * f + b * e + c * h - d * g) == e * b' + f' * a + g' * d' - h' * c'
    ensures -(a * g - b * h + c * e + d * f) == e * c' - f' * d' + g' * a + h' * b'
    ensures -(a * h + b * g - c * f + d * e) == e * d' + f' * c' - g' * b' + h' * a
  {}

  lemma ConjugateProductIs(p: Quaternion, q: Quaternion, s: Quaternion)
    requires IsProduct(p, q, s)
    ensures IsProduct(q.Conjugate(), p.Conjugate(), s.Conjugate())
  {
    var p', q' := p.Conjugate(), q.Conjugate();
    ConjugateComponents(p.w, p.x, p.y, p.z, q.w, q.x, q.y, q.z, p'.x, p'.y, p'.z, q'.x, q'.y, q'.z);
  }

  lemma ConjugateOfProduct(p: Quaternion, q: Quaternion)
    ensures p.Product(q).Conjugate() == q.Conjugate().Product(p.Conjugate())
  {
    hide IsProduct, Quaternion.Product, Quaternion.Conjugate;
    ProductIs(p, q, p.Product(q));
    ConjugateProductIs(p, q, p.Product(q));
    ProductIs(q.Conjugate(), p.Conjugate(), p.Product(q).Conjugate());
  }

  lemma NormComponents(a: real, b: real, c: real, d: real, e: real, f: real, g: real, h: real,
                       sw: real, sx: real, sy: real, sz: real, m: real, n: real)
    requires sw == a * e - b * f - c * g - d * h
    requires sx == a * f + b * e + c * h - d * g
    requires sy == a * g - b * h + c * e + d * f
    requires sz == a * h + b * g - c * f + d * e
    requires m == a * a + b * b + c * c + d * d
    requires n == e * e + f * f + g * g + h * h
    ensures sw * sw + sx * sx + sy * sy + sz * sz == m * n
  {}

  predicate IsNorm(q: Quaternion, m: real) { m == q.w * q.w + q.x * q.x + q.y * q.y + q.z * q.z }

  lemma NormIs(q: Quaternion)
    ensures IsNorm(q, q.Norm())
  {}

  lemma NormOfProductIs(p: Quaternion, q: Quaternion, s: Quaternion, m: real, n: real, k: real)
    requires IsProduct(p, q, s) && IsNorm(p, m) && IsNorm(q, n) && IsNorm(s, k)
    ensures k == m * n
  {
    NormComponents(p.w, p.x, p.y, p.z, q.w, q.x, q.y, q.z, s.w, s.x, s.y, s.z, m, n);
  }

  lemma NormOfProduct(p: Quaternion, q: Quaternion)
    ensures p.Product(q).Norm() == p.Norm() * q.Norm()
  {
    hide IsProduct, IsNorm, Quaternion.Product, Quaternion.Norm;
    var s := p.Product(q);
    ProductIs(p, q, s);
    NormIs(p);
    NormIs(q);
    NormIs(s);
    NormOfProductIs(p, q, s, p.Norm(), q.Norm(), s.Norm());
  }

  lemma NormOfConjugate(q: Quaternion)
    ensures q.Conjugate().Norm() == q.Norm()
    ensures q.Conjugate().Conjugate() == q
  {}

  // ---- Rotations ----

  lemma SandwichIsPure(q: Quaternion, v: Vector)
    ensures Sandwich(q, v).w == 0.0
    ensures Sandwich(q, v) == Rotated(q, v).Pure()
  {}

  lemma PureNorm(v: Vector)
    ensures v.Pure().Norm() == v.Norm()
  {}

  /** Rotating scales the squared length by the square of the quaternion's. */
  lemma RotatedNorm(q: Quaternion, v: Vector)
    ensures Rotated(q, v).Norm() == q.Norm() * v.Norm() * q.Norm()
  {
    hide Quaternion.Norm, Quaternion.Product, Quaternion.Conjugate, Vector.Norm, Rotated;
    SandwichIsPure(q, v);
    PureNorm(Rotated(q, v));
    PureNorm(v);
    NormOfProduct(q, v.Pure());
    NormOfProduct(q.Product(v.Pure()), q.Conjugate());
    NormOfConjugate(q);
  }

  /** Two rotations in a row are one rotation by the product. */
  lemma RotationsCompose(p: Quaternion, q: Quaternion, v: Vector)
    ensures Rotated(p, Rotated(q, v)) == Rotated(p.Product(q), v)
  {
    hide Quaternion.Product, Quaternion.Conjugate, Vector.Pure;
    SandwichIsPure(q, v);
    var u := v.Pure();
    var q', p' := q.Conjugate(), p.Conjugate();
    assert Sandwich(p, Rotated(q, v)) == p.Product(q.Product(u).Product(q')).Product(p');
    ProductAssociative(p, q.Product(u), q');
    ProductAssociative(p, q, u);
    ProductAssociative(p.Product(q).Product(u), q', p');
    ConjugateOfProduct(p, q);
  }

  /** The product of the rotations so far, the latest on the left. */
  function Accumulated(qs: seq<Quaternion>): Quaternion {
    if qs == [] then ONE else qs[|qs| - 1].Product(Accumulated(qs[..|qs| - 1]))
  }

  /** One rotation after the other. */
  function RotatedBy(qs: seq<Quaternion>, v: Vector): Vector {
    if qs == [] then v else Rotated(qs[|qs| - 1], RotatedBy(qs[..|qs| - 1], v))
  }

  ghost predicate AllUnit(qs: seq<Quaternion>) { forall i :: 0 <= i < |qs| ==> qs[i].Norm() == 1.0 }

  /** Any sequence of rotations is one rotation by the accumulated product. */
  lemma {:induction false} RotationsAccumulate(qs: seq<Quaternion>, v: Vector)
    ensures RotatedBy(qs, v) == Rotated(Accumulated(qs), v)
  {
    if qs == [] {
    } else {
      hide Rotated, Quaternion.Product;
      RotationsAccumulate(qs[..|qs| - 1], v);
      RotationsCompose(qs[|qs| - 1], Accumulated(qs[..|qs| - 1]), v);
    }
  }

  /** Any sequence of unit rotations preserves length, and accumulates to a unit quaternion. */
  lemma {:induction false} UnitRotationsKeepLength(qs: seq<Quaternion>, v: Vector)
    requires AllUnit(qs)
    ensures Accumulated(qs).Norm() == 1.0 && RotatedBy(qs, v).Norm() == v.Norm()
  {
    if qs != [] {
      hide Rotated, Quaternion.Product, Quaternion.Norm, Vector.Norm;
      var front, last := qs[..|qs| - 1], qs[|qs| - 1];
      UnitRotationsKeepLength(front, v);
      NormOfProduct(last, Accumulated(front));
      RotatedNorm(last, RotatedBy(front, v));
    }
  }

  lemma ConjugateInverts(q: Quaternion)
    ensures q.Conjugate().Product(q) == Quaternion(q.Norm(), 0.0, 0.0, 0.0)
  {}

  lemma ScalarRotation(k: real, v: Vector)
    ensures Rotated(Quaternion(k, 0.0, 0.0, 0.0), v) == Vector(k * k * v.x, k * k * v.y, k * k * v.z)
  {}

  /** Rotating back by the conjugate: the vector returns, scaled by the fourth power of the magnitude,
      and so exactly for a unit quaternion. */
  lemma RotateBack(q: Quaternion, v: Vector)
    ensures Rotated(q.Conjugate(), Rotated(q, v))
      == Vector(q.Norm() * q.Norm() * v.x, q.Norm() * q.Norm() * v.y, q.Norm() * q.Norm() * v.z)
  {
    hide Rotated, Quaternion.Product, Quaternion.Conjugate, Quaternion.Norm;
    RotationsCompose(q.Conjugate(), q, v);
    ConjugateInverts(q);
    ScalarRotation(q.Norm(), v);
  }

  // ---- Gravity ----

  /** The closed form of the direction of gravity. */
  function Gravity(q: Quaternion): Vector {
    Vector(2.0 * (q.x * q.z - q.w * q.y),
           2.0 * (q.w * q.x + q.y * q.z),
           q.w * q.w - q.x * q.x - q.y * q.y + q.z * q.z)
  }

  const UP := Vector(0.0, 0.0, 1.0)

  /** The closed form is the upward unit vector, rotated by the conjugate of the attitude; rotating
      it by the attitude itself gives that vector back, for a unit quaternion. */
  lemma GravityIsRotatedUp(q: Quaternion)
    ensures Gravity(q) == Rotated(q.Conjugate(), Vector(0.0, 0.0, 1.0))
    ensures Gravity(q) == Vector(2.0 * (q.x * q.z - q.w * q.y), 2.0 * (q.w * q.x + q.y * q.z),
                                 q.w * q.w - q.x * q.x - q.y * q.y + q.z * q.z)
    ensures Gravity(q).Norm() == q.Norm() * q.Norm()
    ensures q.Norm() == 1.0 ==> Rotated(q, Gravity(q)) == UP
  {
    GravityExpanded(q);
    hide Rotated, Quaternion.Product, Quaternion.Conjugate, Quaternion.Norm, Gravity;
    RotatedNorm(q.Conjugate(), UP);
    NormOfConjugate(q);
    RotateBack(q.Conjugate(), UP);
  }

  lemma GravityExpanded(q: Quaternion)
    ensures Gravity(q) == Rotated(q.Conjugate(), UP)
    ensures Gravity(q) == Vector(2.0 * (q.x * q.z - q.w * q.y), 2.0 * (q.w * q.x + q.y * q.z),
                                 q.w * q.w - q.x * q.x - q.y * q.y + q.z * q.z)
  {}

  // ---- The vector object ----

  class VectorFloat {
    var x: real
    var y: real
    var z: real

    constructor (nx: real, ny: real, nz: real)
      ensures View() == Vector(nx, ny, nz)
    {
      x, y, z := nx, ny, nz;
    }

    function View(): Vector
      reads this
    {
      Vector(x, y, z)
    }

    /** Rotates in place. The first component of the quaternion that is dropped is zero. */
    method Rotate(q: Quaternion)
      modifies this
      ensures View() == Rotated(q, old(View()))
      ensures View().Norm() == q.Norm() * old(View()).Norm() * q.Norm()
    {
      hide Quaternion.Product, Quaternion.Conjugate, Quaternion.Norm, Vector.Norm;
      RotatedNorm(q, View());
      var p := Quaternion(0.0, x, y, z);
      p := q.Product(p);
      p := p.Product(q.Conjugate());
      x, y, z := p.x, p.y, p.z;
    }

    method GetRotated(q: Quaternion) returns (r: VectorFloat)
      ensures fresh(r) && r.View() == Rotated(q, View())
    {
      hide Rotated;
      r := new VectorFloat(x, y, z);
      r.Rotate(q);
    }
  }
}

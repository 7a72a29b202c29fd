/** Integer plane geometry for a drawing canvas: points, affine maps, and the
    unit squares that make up pixels. The canvas coordinate system has its
    origin at the top-left corner and its y axis pointing down. */
module Geometry {

  datatype Point = Point(x: int, y: int)

  /** The affine map (x, y) |-> (a*x + b*y + tx, c*x + d*y + ty). */
  datatype Affine = Affine(a: int, b: int, c: int, d: int, tx: int, ty: int)

  function Apply(m: Affine, p: Point): Point
  {
    Point(m.a * p.x + m.b * p.y + m.tx, m.c * p.x + m.d * p.y + m.ty)
  }

  const Identity: Affine := Affine(1, 0, 0, 1, 0, 0)

  /** The matrix product m * n: the map that applies n first and m second.
      A canvas call appends its own matrix on the right of the current one. */
  function Concat(m: Affine, n: Affine): Affine
  {
    Affine(m.a * n.a + m.b * n.c, m.a * n.b + m.b * n.d,
           m.c * n.a + m.d * n.c, m.c * n.b + m.d * n.d,
           m.a * n.tx + m.b * n.ty + m.tx, m.c * n.tx + m.d * n.ty + m.ty)
  }

  /** Concat composes: the product applies its right factor first. */
  lemma ApplyConcat(m: Affine, n: Affine, p: Point)
    ensures Apply(Concat(m, n), p) == Apply(m, Apply(n, p))
  {
    var q := Apply(n, p);
    calc {
      m.a * q.x + m.b * q.y;
      m.a * (n.a * p.x + n.b * p.y + n.tx) + m.b * (n.c * p.x + n.d * p.y + n.ty);
      (m.a * n.a + m.b * n.c) * p.x + (m.a * n.b + m.b * n.d) * p.y + (m.a * n.tx + m.b * n.ty);
    }
    calc {
      m.c * q.x + m.d * q.y;
      m.c * (n.a * p.x + n.b * p.y + n.tx) + m.d * (n.c * p.x + n.d * p.y + n.ty);
      (m.c * n.a + m.d * n.c) * p.x + (m.c * n.b + m.d * n.d) * p.y + (m.c * n.tx + m.d * n.ty);
    }
  }

  /** Two affine maps are equal exactly when they agree on the three points
      (0, 0), (1, 0) and (0, 1). */
  lemma EqualOnBasis(m: Affine, n: Affine)
    requires Apply(m, Point(0, 0)) == Apply(n, Point(0, 0))
    requires Apply(m, Point(1, 0)) == Apply(n, Point(1, 0))
    requires Apply(m, Point(0, 1)) == Apply(n, Point(0, 1))
    ensures m == n
  {
  }

  lemma ConcatIdentity(m: Affine)
    ensures Concat(Identity, m) == m && Concat(m, Identity) == m
  {
  }

  lemma ConcatAssociative(l: Affine, m: Affine, n: Affine)
    ensures Concat(Concat(l, m), n) == Concat(l, Concat(m, n))
  {
    var lhs, rhs := Concat(Concat(l, m), n), Concat(l, Concat(m, n));
    forall p | p == Point(0, 0) || p == Point(1, 0) || p == Point(0, 1)
      ensures Apply(lhs, p) == Apply(rhs, p)
    {
      ApplyConcat(Concat(l, m), n, p);
      ApplyConcat(l, m, Apply(n, p));
      ApplyConcat(l, Concat(m, n), p);
      ApplyConcat(m, n, p);
    }
    EqualOnBasis(lhs, rhs);
  }

  function Translation(dx: int, dy: int): Affine
  {
    Affine(1, 0, 0, 1, dx, dy)
  }

  function Scaling(sx: int, sy: int): Affine
  {
    Affine(sx, 0, 0, sy, 0, 0)
  }

  /** Cosine and sine of a whole number of quarter turns. */
  function CosDegrees(degrees: int): int
    requires degrees % 90 == 0
  {
    match (degrees / 90) % 4
    case 0 => 1
    case 1 => 0
    case 2 => -1
    case _ => 0
  }

  function SinDegrees(degrees: int): int
    requires degrees % 90 == 0
  {
    match (degrees / 90) % 4
    case 0 => 0
    case 1 => 1
    case 2 => 0
    case _ => -1
  }

  /** Rotation about the origin by a positive (clockwise on a y-down canvas)
      or negative whole number of quarter turns. */
  function Rotation(degrees: int): Affine
    requires degrees % 90 == 0
  {
    var cos, sin := CosDegrees(degrees), SinDegrees(degrees);
    Affine(cos, -sin, sin, cos, 0, 0)
  }

  /** Rotation about the pivot (px, py), written out in closed form. */
  function RotationAbout(degrees: int, px: int, py: int): Affine
    requires degrees % 90 == 0
  {
    var cos, sin := CosDegrees(degrees), SinDegrees(degrees);
    Affine(cos, -sin, sin, cos, px - cos * px + sin * py, py - sin * px - cos * py)
  }

  /** The closed form is: move the pivot to the origin, rotate, move it
      back; so the pivot stays put. */
  lemma RotationAboutConjugate(degrees: int, px: int, py: int)
    requires degrees % 90 == 0
    ensures RotationAbout(degrees, px, py) == Concat(Translation(px, py), Concat(Rotation(degrees), Translation(-px, -py)))
    ensures Apply(RotationAbout(degrees, px, py), Point(px, py)) == Point(px, py)
  {
  }

  /** Axis scaling about the pivot (px, py), written out in closed form. */
  function ScalingAbout(sx: int, sy: int, px: int, py: int): Affine
  {
    Affine(sx, 0, 0, sy, px - sx * px, py - sy * py)
  }

  /** The closed form is: move the pivot to the origin, scale, move it
      back; so the pivot stays put. */
  lemma ScalingAboutConjugate(sx: int, sy: int, px: int, py: int)
    ensures ScalingAbout(sx, sy, px, py) == Concat(Translation(px, py), Concat(Scaling(sx, sy), Translation(-px, -py)))
    ensures Apply(ScalingAbout(sx, sy, px, py), Point(px, py)) == Point(px, py)
  {
  }

  function Min(i: int, j: int): int
  {
    if i <= j then i else j
  }

  /** Pixel (i, j) covers the unit square whose top-left corner is (i, j);
      these are its four corners. */
  function Corners(cell: Point): set<Point>
  {
    {cell, Point(cell.x + 1, cell.y), Point(cell.x, cell.y + 1), Point(cell.x + 1, cell.y + 1)}
  }

  /** A map whose linear part is a signed permutation matrix: it sends unit
      squares with integer corners to unit squares with integer corners. */
  predicate AxisAligned(m: Affine)
  {
    || (m.b == 0 && m.c == 0 && (m.a == 1 || m.a == -1) && (m.d == 1 || m.d == -1))
    || (m.a == 0 && m.d == 0 && (m.b == 1 || m.b == -1) && (m.c == 1 || m.c == -1))
  }

  /** The pixel that pixel `cell` is painted onto under m: the top-left corner
      of the image of the cell's square, found from two opposite corners. */
  function CellImage(m: Affine, cell: Point): Point
  {
    var p, q := Apply(m, cell), Apply(m, Point(cell.x + 1, cell.y + 1));
    Point(Min(p.x, q.x), Min(p.y, q.y))
  }

  /** For an axis-aligned map, the four corners of a pixel go exactly onto
      the four corners of the pixel CellImage names. */
  lemma CellImageCorners(m: Affine, cell: Point)
    requires AxisAligned(m)
    ensures (set p | p in Corners(cell) :: Apply(m, p)) == Corners(CellImage(m, cell))
  {
    var i, j := cell.x, cell.y;
    var p00, p10 := Apply(m, Point(i, j)), Apply(m, Point(i + 1, j));
    var p01, p11 := Apply(m, Point(i, j + 1)), Apply(m, Point(i + 1, j + 1));
    assert (set p | p in Corners(cell) :: Apply(m, p)) == {p00, p10, p01, p11};
    var t := CellImage(m, cell);
    var box := {t, Point(t.x + 1, t.y), Point(t.x, t.y + 1), Point(t.x + 1, t.y + 1)};
    if m.b == 0 {
      if m.a == 1 && m.d == 1 {
        assert {p00, p10, p01, p11} == box;
      } else if m.a == 1 {
        assert {p00, p10, p01, p11} == box;
      } else if m.d == 1 {
        assert {p00, p10, p01, p11} == box;
      } else {
        assert {p00, p10, p01, p11} == box;
      }
    } else {
      if m.b == 1 && m.c == 1 {
        assert {p00, p10, p01, p11} == box;
      } else if m.b == 1 {
        assert {p00, p10, p01, p11} == box;
      } else if m.c == 1 {
        assert {p00, p10, p01, p11} == box;
      } else {
        assert {p00, p10, p01, p11} == box;
      }
    }
  }

  predicate InCanvas(cell: Point, width: int, height: int)
  {
    0 <= cell.x < width && 0 <= cell.y < height
  }

  /** m paints every pixel of a width x height source inside an
      outWidth x outHeight canvas, no two onto the same pixel, and leaves no
      pixel of the canvas unpainted. */
  ghost predicate BijectiveOnto(m: Affine, width: int, height: int, outWidth: int, outHeight: int)
  {
    && (forall cell :: InCanvas(cell, width, height) ==> InCanvas(CellImage(m, cell), outWidth, outHeight))
    && (forall c1, c2 ::
          InCanvas(c1, width, height) && InCanvas(c2, width, height) && CellImage(m, c1) == CellImage(m, c2)
          ==> c1 == c2)
    && (forall t :: InCanvas(t, outWidth, outHeight) ==>
          exists cell :: InCanvas(cell, width, height) && CellImage(m, cell) == t)
  }
}

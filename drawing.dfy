/** The transformation state of a drawing surface's canvas, as the image
    library keeps it: a current matrix, initially the identity, onto which
    every transform call concatenates its own matrix on the right. A bitmap
    drawn at (0, 0) afterwards puts its point p at Apply(matrix, p), so its
    pixel c onto the canvas pixel CellImage(matrix, c). */
module Drawing {
  import opened Geometry

  class Canvas {
    const width: nat
    const height: nat
    var matrix: Affine

    /** A freshly allocated surface of the given size. */
    constructor (width: nat, height: nat)
      ensures this.width == width && this.height == height
      ensures matrix == Identity
    {
      this.width := width;
      this.height := height;
      matrix := Identity;
    }

    method Translate(dx: int, dy: int)
      modifies this`matrix
      ensures matrix == Concat(old(matrix), Translation(dx, dy))
    {
      matrix := Concat(matrix, Translation(dx, dy));
    }

    /** Rotation about (px, py); exact only for whole quarter turns. */
    method RotateDegrees(degrees: int, px: int, py: int)
      requires degrees % 90 == 0
      modifies this`matrix
      ensures matrix == Concat(old(matrix), RotationAbout(degrees, px, py))
    {
      matrix := Concat(matrix, RotationAbout(degrees, px, py));
    }

    method Scale(sx: int, sy: int, px: int, py: int)
      modifies this`matrix
      ensures matrix == Concat(old(matrix), ScalingAbout(sx, sy, px, py))
    {
      matrix := Concat(matrix, ScalingAbout(sx, sy, px, py));
    }
  }
}

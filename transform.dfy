/** The per-action choice of the output canvas size and of the canvas
    transform that is in force when the source bitmap is drawn at (0, 0),
    and what that choice does to every pixel of the source. */
module Transform {
  import opened Geometry
  import opened ActionKinds
  import Drawing

  datatype Size = Size(width: nat, height: nat)

  /** The output canvas size for a source of the given size: the two
      rotations swap width and height, the two reflections keep them. */
  function OutputSize(action: ActionKind, width: nat, height: nat): Size
  {
    match action
    case Clockwise => Size(height, width)
    case CounterClockwise => Size(height, width)
    case Mirror => Size(width, height)
    case Flip => Size(width, height)
  }

  /** The rotations give the canvas the source's height as its width and
      its width as its height; the reflections keep the source's size. Either
      way the canvas has the source's two side lengths, and computing the size
      again from the canvas gives back the source's size. */
  lemma OutputSizeRule(action: ActionKind, width: nat, height: nat)
    ensures OutputSize(action, width, height) ==
      if action == Clockwise || action == CounterClockwise then Size(height, width) else Size(width, height)
    ensures var size := OutputSize(action, width, height);
      && multiset{size.width, size.height} == multiset{width, height}
      && OutputSize(action, size.width, size.height) == Size(width, height)
  {
  }

  /** The closed form of the clockwise (or counter-clockwise) quarter turn
      for a width x height source. */
  function QuarterTurn(clockwise: bool, width: nat, height: nat): Affine
  {
    if clockwise then Affine(0, -1, 1, 0, height, 0) else Affine(0, 1, -1, 0, 0, width)
  }

  /** The closed form of the exact left-right (or top-bottom) reflection of a
      width x height canvas. */
  function Reflection(mirror: bool, width: nat, height: nat): Affine
  {
    if mirror then Affine(-1, 0, 0, 1, width, 0) else Affine(1, 0, 0, -1, 0, height)
  }

  /** The matrix each action's transformation concatenates onto the canvas,
      given the output size it captured. A rotation's calls amount to the
      quarter turn of an outHeight x outWidth source. A reflection's pivot
      is halved with integer division on non-negative sizes, which truncates
      the same way in C# as in Dafny, so its call amounts to the exact
      reflection of a canvas whose halved size is rounded down to even. */
  function TransformMatrix(action: ActionKind, outWidth: nat, outHeight: nat): (r: Affine)
    ensures r == match action
      case Clockwise => QuarterTurn(true, outHeight, outWidth)
      case CounterClockwise => QuarterTurn(false, outHeight, outWidth)
      case Mirror => Reflection(true, 2 * (outWidth / 2), outHeight)
      case Flip => Reflection(false, outWidth, 2 * (outHeight / 2))
  {
    match action
    case Clockwise =>
      assert RotationAbout(90, 0, 0) == Affine(0, -1, 1, 0, 0, 0);
      Concat(RotationAbout(90, 0, 0), Translation(0, -(outWidth as int)))
    case CounterClockwise =>
      assert RotationAbout(-90, 0, 0) == Affine(0, 1, -1, 0, 0, 0);
      Concat(RotationAbout(-90, 0, 0), Translation(-(outHeight as int), 0))
    case Mirror => ScalingAbout(-1, 1, outWidth / 2, outHeight / 2)
    case Flip => ScalingAbout(1, -1, outWidth / 2, outHeight / 2)
  }

  /** The transformation delegate: the canvas calls of one branch. */
  method Transformation(action: ActionKind, outWidth: nat, outHeight: nat, canvas: Drawing.Canvas)
    modifies canvas`matrix
    ensures canvas.matrix == Concat(old(canvas.matrix), TransformMatrix(action, outWidth, outHeight))
  {
    var m0 := canvas.matrix;
    match action
    case Clockwise =>
      canvas.RotateDegrees(90, 0, 0);
      canvas.Translate(0, -(outWidth as int));
      ConcatAssociative(m0, RotationAbout(90, 0, 0), Translation(0, -(outWidth as int)));
    case CounterClockwise =>
      canvas.RotateDegrees(-90, 0, 0);
      canvas.Translate(-(outHeight as int), 0);
      ConcatAssociative(m0, RotationAbout(-90, 0, 0), Translation(-(outHeight as int), 0));
    case Mirror =>
      canvas.Scale(-1, 1, outWidth / 2, outHeight / 2);
    case Flip =>
      canvas.Scale(1, -1, outWidth / 2, outHeight / 2);
  }

  /** The matrix in force when a width x height source is drawn onto the
      freshly allocated output canvas. It moves whole pixels onto whole
      pixels. The rotations keep the picture's handedness (their linear part
      is a rotation matrix) and the reflections reverse it (their linear part
      is a reflection matrix). */
  function Selected(action: ActionKind, width: nat, height: nat): (r: Affine)
    ensures AxisAligned(r)
    ensures if action == Clockwise || action == CounterClockwise
            then r.a == r.d && r.b == -r.c
            else r.a == -r.d && r.b == r.c
  {
    var size := OutputSize(action, width, height);
    TransformMatrix(action, size.width, size.height)
  }

  /** The output pixel that source pixel `cell` is painted onto. */
  function CellMap(action: ActionKind, width: nat, height: nat, cell: Point): Point
  {
    CellImage(Selected(action, width, height), cell)
  }

  ghost predicate Bijective(action: ActionKind, width: nat, height: nat)
  {
    var size := OutputSize(action, width, height);
    BijectiveOnto(Selected(action, width, height), width, height, size.width, size.height)
  }

  /** Where each action sends a point of the source plane. */
  lemma PointMapping(action: ActionKind, width: nat, height: nat, p: Point)
    ensures Apply(Selected(action, width, height), p) ==
      match action
      case Clockwise => Point(height - p.y, p.x)
      case CounterClockwise => Point(p.y, width - p.x)
      case Mirror => Point(2 * (width / 2) - p.x, p.y)
      case Flip => Point(p.x, 2 * (height / 2) - p.y)
  {
  }

  /** Each action's matrix, in terms of the source size: a quarter turn
      of the source, or the exact reflection of a canvas whose reflected
      side is rounded down to even. */
  lemma SelectedClosedForm(action: ActionKind, width: nat, height: nat)
    ensures Selected(action, width, height) ==
      match action
      case Clockwise => QuarterTurn(true, width, height)
      case CounterClockwise => QuarterTurn(false, width, height)
      case Mirror => Reflection(true, 2 * (width / 2), height)
      case Flip => Reflection(false, width, 2 * (height / 2))
  {
  }

  /** Where each action sends a pixel of the source. */
  lemma CellMapping(action: ActionKind, width: nat, height: nat, cell: Point)
    ensures CellMap(action, width, height, cell) ==
      match action
      case Clockwise => Point(height - 1 - cell.y, cell.x)
      case CounterClockwise => Point(cell.y, width - 1 - cell.x)
      case Mirror => Point(2 * (width / 2) - 1 - cell.x, cell.y)
      case Flip => Point(cell.x, 2 * (height / 2) - 1 - cell.y)
  {
    PointMapping(action, width, height, cell);
    PointMapping(action, width, height, Point(cell.x + 1, cell.y + 1));
  }

  lemma QuarterTurnCell(clockwise: bool, width: nat, height: nat, cell: Point)
    ensures CellImage(QuarterTurn(clockwise, width, height), cell) ==
      if clockwise then Point(height - 1 - cell.y, cell.x) else Point(cell.y, width - 1 - cell.x)
  {
  }

  lemma ReflectionCell(mirror: bool, width: nat, height: nat, cell: Point)
    ensures CellImage(Reflection(mirror, width, height), cell) ==
      if mirror then Point(width - 1 - cell.x, cell.y) else Point(cell.x, height - 1 - cell.y)
  {
  }

  /** A quarter turn maps a width x height source exactly onto a
      height x width canvas. */
  lemma QuarterTurnExact(clockwise: bool, width: nat, height: nat)
    ensures BijectiveOnto(QuarterTurn(clockwise, width, height), width, height, height, width)
  {
    var m := QuarterTurn(clockwise, width, height);
    forall cell | InCanvas(cell, width, height)
      ensures InCanvas(CellImage(m, cell), height, width)
    {
      QuarterTurnCell(clockwise, width, height, cell);
    }
    forall c1, c2 | InCanvas(c1, width, height) && InCanvas(c2, width, height) && CellImage(m, c1) == CellImage(m, c2)
      ensures c1 == c2
    {
      QuarterTurnCell(clockwise, width, height, c1);
      QuarterTurnCell(clockwise, width, height, c2);
    }
    forall t | InCanvas(t, height, width)
      ensures exists cell :: InCanvas(cell, width, height) && CellImage(m, cell) == t
    {
      var cell := if clockwise then Point(t.y, height - 1 - t.x) else Point(width - 1 - t.y, t.x);
      QuarterTurnCell(clockwise, width, height, cell);
      assert InCanvas(cell, width, height) && CellImage(m, cell) == t;
    }
  }

  /** An exact reflection maps a width x height source exactly onto a canvas
      of the same size. */
  lemma ReflectionExact(mirror: bool, width: nat, height: nat)
    ensures BijectiveOnto(Reflection(mirror, width, height), width, height, width, height)
  {
    var m := Reflection(mirror, width, height);
    forall cell | InCanvas(cell, width, height)
      ensures InCanvas(CellImage(m, cell), width, height)
    {
      ReflectionCell(mirror, width, height, cell);
    }
    forall c1, c2 | InCanvas(c1, width, height) && InCanvas(c2, width, height) && CellImage(m, c1) == CellImage(m, c2)
      ensures c1 == c2
    {
      ReflectionCell(mirror, width, height, c1);
      ReflectionCell(mirror, width, height, c2);
    }
    forall t | InCanvas(t, width, height)
      ensures exists cell :: InCanvas(cell, width, height) && CellImage(m, cell) == t
    {
      var cell := if mirror then Point(width - 1 - t.x, t.y) else Point(t.x, height - 1 - t.y);
      ReflectionCell(mirror, width, height, cell);
      assert InCanvas(cell, width, height) && CellImage(m, cell) == t;
    }
  }

  /** Both rotations paint each source pixel onto a distinct pixel of the
      output canvas and cover all of it. */
  lemma RotationsBijective(action: ActionKind, width: nat, height: nat)
    requires action == Clockwise || action == CounterClockwise
    ensures Bijective(action, width, height)
  {
    SelectedClosedForm(action, width, height);
    assert Selected(action, width, height) == QuarterTurn(action == Clockwise, width, height);
    QuarterTurnExact(action == Clockwise, width, height);
  }

  /** Mirror paints the source exactly onto the canvas if and only if the
      width is even (or the image is empty). */
  lemma MirrorBijectiveIff(width: nat, height: nat)
    ensures Bijective(Mirror, width, height) <==> width % 2 == 0 || height == 0
  {
    if width % 2 == 0 {
      SelectedClosedForm(Mirror, width, height);
      assert 2 * (width / 2) == width;
      assert Selected(Mirror, width, height) == Reflection(true, width, height);
      ReflectionExact(true, width, height);
    } else if height > 0 {
      MirrorDropsLastColumn(width, height, 0);
      assert InCanvas(Point(width - 1, 0), width, height);
    }
  }

  /** Flip paints the source exactly onto the canvas if and only if the
      height is even (or the image is empty). */
  lemma FlipBijectiveIff(width: nat, height: nat)
    ensures Bijective(Flip, width, height) <==> height % 2 == 0 || width == 0
  {
    if height % 2 == 0 {
      SelectedClosedForm(Flip, width, height);
      assert 2 * (height / 2) == height;
      assert Selected(Flip, width, height) == Reflection(false, width, height);
      ReflectionExact(false, width, height);
    } else if width > 0 {
      FlipDropsLastRow(width, height, 0);
      assert InCanvas(Point(0, height - 1), width, height);
    }
  }

  /** With an odd width, Mirror paints the last source column one pixel left
      of the canvas, and the last output column receives no source pixel. */
  lemma MirrorDropsLastColumn(width: nat, height: nat, y: int)
    requires width % 2 == 1 && 0 <= y < height
    ensures CellMap(Mirror, width, height, Point(width - 1, y)) == Point(-1, y)
    ensures forall cell :: InCanvas(cell, width, height) ==> CellMap(Mirror, width, height, cell) != Point(width - 1, y)
  {
    CellMapping(Mirror, width, height, Point(width - 1, y));
    forall cell | InCanvas(cell, width, height)
      ensures CellMap(Mirror, width, height, cell) != Point(width - 1, y)
    {
      CellMapping(Mirror, width, height, cell);
    }
  }

  /** With an odd height, Flip paints the last source row one pixel above
      the canvas, and the last output row receives no source pixel. */
  lemma FlipDropsLastRow(width: nat, height: nat, x: int)
    requires height % 2 == 1 && 0 <= x < width
    ensures CellMap(Flip, width, height, Point(x, height - 1)) == Point(x, -1)
    ensures forall cell :: InCanvas(cell, width, height) ==> CellMap(Flip, width, height, cell) != Point(x, height - 1)
  {
    CellMapping(Flip, width, height, Point(x, height - 1));
    forall cell | InCanvas(cell, width, height)
      ensures CellMap(Flip, width, height, cell) != Point(x, height - 1)
    {
      CellMapping(Flip, width, height, cell);
    }
  }

  /** Clockwise then counter-clockwise, or the other way round, restores the
      size and is the identity on points and on pixels. */
  lemma RotationRoundTrip(width: nat, height: nat, cell: Point)
    ensures OutputSize(CounterClockwise, height, width) == OutputSize(Clockwise, height, width) == Size(width, height)
    ensures Concat(Selected(CounterClockwise, height, width), Selected(Clockwise, width, height)) == Identity
    ensures Concat(Selected(Clockwise, height, width), Selected(CounterClockwise, width, height)) == Identity
    ensures CellMap(CounterClockwise, height, width, CellMap(Clockwise, width, height, cell)) == cell
    ensures CellMap(Clockwise, height, width, CellMap(CounterClockwise, width, height, cell)) == cell
  {
    SelectedClosedForm(Clockwise, width, height);
    SelectedClosedForm(CounterClockwise, height, width);
    SelectedClosedForm(Clockwise, height, width);
    SelectedClosedForm(CounterClockwise, width, height);
    CellMapping(Clockwise, width, height, cell);
    CellMapping(CounterClockwise, height, width, CellMap(Clockwise, width, height, cell));
    CellMapping(CounterClockwise, width, height, cell);
    CellMapping(Clockwise, height, width, CellMap(CounterClockwise, width, height, cell));
  }

  /** The matrix of Mirror (or Flip) undoes itself as a map of the plane and
      of pixel positions, whatever the size. On the clipped canvas, though,
      two runs of the tool restore the image only for an even size: see
      ReflectTwiceRestoresIff. */
  lemma ReflectionInvolution(action: ActionKind, width: nat, height: nat, cell: Point)
    requires action == Mirror || action == Flip
    ensures OutputSize(action, width, height) == Size(width, height)
    ensures Concat(Selected(action, width, height), Selected(action, width, height)) == Identity
    ensures CellMap(action, width, height, CellMap(action, width, height, cell)) == cell
  {
    SelectedClosedForm(action, width, height);
    if action == Mirror {
      ReflectionSquare(true, 2 * (width / 2), height);
    } else {
      ReflectionSquare(false, width, 2 * (height / 2));
    }
    var image := CellMap(action, width, height, cell);
    CellMapping(action, width, height, cell);
    CellMapping(action, width, height, image);
  }

  /** An exact reflection of a canvas of any size undoes itself. */
  lemma ReflectionSquare(mirror: bool, width: nat, height: nat)
    ensures Concat(Reflection(mirror, width, height), Reflection(mirror, width, height)) == Identity
  {
  }

  /** Two runs of the tool with the same reflection give back the image: each
      source pixel is painted inside the canvas by the first run, and the
      second run paints it back where it started. */
  ghost predicate TwiceRestores(action: ActionKind, width: nat, height: nat)
  {
    forall cell :: InCanvas(cell, width, height) ==>
      && InCanvas(CellMap(action, width, height, cell), width, height)
      && CellMap(action, width, height, CellMap(action, width, height, cell)) == cell
  }

  /** Mirroring twice gives back the image if and only if the width is even
      (or the image is empty), and flipping twice if and only if the height
      is even (or the image is empty). */
  lemma ReflectTwiceRestoresIff(action: ActionKind, width: nat, height: nat)
    requires action == Mirror || action == Flip
    ensures TwiceRestores(action, width, height) <==>
      if action == Mirror then width % 2 == 0 || height == 0 else height % 2 == 0 || width == 0
  {
    if action == Mirror && width % 2 == 1 && height > 0 {
      OddReflectionLosesPixel(action, width, height);
    } else if action == Flip && height % 2 == 1 && width > 0 {
      OddReflectionLosesPixel(action, width, height);
    } else if (action == Mirror && width % 2 == 0) || (action == Flip && height % 2 == 0) {
      EvenReflectionRestores(action, width, height);
    }
  }

  lemma EvenReflectionRestores(action: ActionKind, width: nat, height: nat)
    requires action == Mirror || action == Flip
    requires if action == Mirror then width % 2 == 0 else height % 2 == 0
    ensures TwiceRestores(action, width, height)
  {
    forall cell | InCanvas(cell, width, height)
      ensures InCanvas(CellMap(action, width, height, cell), width, height)
      ensures CellMap(action, width, height, CellMap(action, width, height, cell)) == cell
    {
      CellMapping(action, width, height, cell);
      ReflectionInvolution(action, width, height, cell);
    }
  }

  /** With an odd reflected side, the first run paints one source pixel
      off the canvas. */
  lemma OddReflectionLosesPixel(action: ActionKind, width: nat, height: nat)
    requires action == Mirror || action == Flip
    requires if action == Mirror then width % 2 == 1 && height > 0 else height % 2 == 1 && width > 0
    ensures !TwiceRestores(action, width, height)
  {
    var last := if action == Mirror then Point(width - 1, 0) else Point(0, height - 1);
    CellMapping(action, width, height, last);
    assert InCanvas(last, width, height) && !InCanvas(CellMap(action, width, height, last), width, height);
  }

  /** Three counter-clockwise quarter turns, each on the canvas the previous
      one produced, amount to one clockwise quarter turn. */
  lemma ThreeCounterClockwiseIsClockwise(width: nat, height: nat)
    ensures OutputSize(CounterClockwise, width, height) == OutputSize(Clockwise, width, height)
    ensures Concat(Selected(CounterClockwise, width, height),
              Concat(Selected(CounterClockwise, height, width), Selected(CounterClockwise, width, height)))
            == Selected(Clockwise, width, height)
  {
  }

  /** Four clockwise quarter turns restore the size and every point. */
  lemma FourClockwiseIsIdentity(width: nat, height: nat)
    ensures OutputSize(Clockwise, height, width) == Size(width, height)
    ensures Concat(Concat(Selected(Clockwise, height, width), Selected(Clockwise, width, height)),
                   Concat(Selected(Clockwise, height, width), Selected(Clockwise, width, height)))
            == Identity
  {
  }

  /** The reflection the Mirror and Flip branches evidently intend: about the
      exact centre line of the canvas, which lies between two pixels when the
      size is odd. Scaling by -1 about the pivot w / 2 taken exactly is
      x |-> w - x, an integer map even where the pivot is not an integer. */
  function IntendedMatrix(action: ActionKind, outWidth: nat, outHeight: nat): Affine
  {
    match action
    case Mirror => Concat(Translation(outWidth, 0), Scaling(-1, 1))
    case Flip => Concat(Translation(0, outHeight), Scaling(1, -1))
    case _ => TransformMatrix(action, outWidth, outHeight)
  }

  function IntendedSelected(action: ActionKind, width: nat, height: nat): Affine
  {
    var size := OutputSize(action, width, height);
    IntendedMatrix(action, size.width, size.height)
  }

  /** Where the intended reflections send a pixel, whatever the size. */
  lemma IntendedCellMapping(action: ActionKind, width: nat, height: nat, cell: Point)
    requires action == Mirror || action == Flip
    ensures CellImage(IntendedSelected(action, width, height), cell) ==
      if action == Mirror then Point(width - 1 - cell.x, cell.y) else Point(cell.x, height - 1 - cell.y)
  {
    assert IntendedSelected(action, width, height) == Reflection(action == Mirror, width, height);
  }

  /** The intended reflections are exact for every size: every source pixel
      lands inside the canvas, every canvas pixel is painted exactly once,
      and a second pass restores each pixel. */
  lemma IntendedReflectionExact(action: ActionKind, width: nat, height: nat)
    requires action == Mirror || action == Flip
    ensures BijectiveOnto(IntendedSelected(action, width, height), width, height, width, height)
    ensures forall cell :: CellImage(IntendedSelected(action, width, height), CellImage(IntendedSelected(action, width, height), cell)) == cell
  {
    var m := IntendedSelected(action, width, height);
    assert m == Reflection(action == Mirror, width, height);
    ReflectionExact(action == Mirror, width, height);
    forall cell
      ensures CellImage(m, CellImage(m, cell)) == cell
    {
      IntendedCellMapping(action, width, height, cell);
      IntendedCellMapping(action, width, height, CellImage(m, cell));
    }
  }

  /** Where the size the reflection halves is even, the code as written and
      the intended reflection coincide. */
  lemma IntendedAgreesWhenEven(action: ActionKind, width: nat, height: nat)
    requires action == Mirror ==> width % 2 == 0
    requires action == Flip ==> height % 2 == 0
    ensures IntendedSelected(action, width, height) == Selected(action, width, height)
  {
  }
}

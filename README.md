# ImageManipulator in Dafny

ImageManipulator is a command-line tool that rotates an image a quarter turn
clockwise or counter-clockwise, mirrors it left to right, or flips it top to
bottom. It can also copy the image's metadata tags to the output. All decoding,
drawing, encoding and tag handling is done by an image library and a tag
library. Two pieces of logic belong to the program itself, and this project
models and proves both:

1. **Transform selection.** For each action, the program picks the output
   canvas size and the canvas calls (rotate then translate, or scale about a
   pivot) under which the source bitmap is drawn at (0, 0).
2. **The metadata bridge (`StreamFileAbstraction`).** It copies the remaining
   bytes of a stream into a private buffer without moving the stream. It
   exposes a name, a read handle and a write handle, plus a one-shot "closed"
   flag. The flag makes the next write-handle request return null and reopen
   the bridge.

Modules follow the source: `ActionKinds` (the closed set of actions),
`Geometry` (integer points, affine maps, pixels), `Drawing` (the canvas's
current matrix), `Transform` (the `switch` over the action), `Streams` and
`Bridge` (the bridge class), and `Program` (one run: exit codes and the two
bridges of the keep-tags branch).

Assumptions about the image library, which is not part of this model:

- A canvas keeps a current matrix, which starts as the identity. Each
  `Translate`, `RotateDegrees` or `Scale` call concatenates its own matrix on
  the right, so the current matrix becomes `M * op`. A point `p` of a bitmap
  drawn afterwards lands at `M(p)`. For the clockwise branch this gives
  `Rotate(Translate(p))`.
- Matrices are exact integer affine maps. A rotation by `d` degrees, on a
  canvas whose y axis points down, is `[cos d, -sin d; sin d, cos d]`. It is
  exact only for whole quarter turns, and quarter turns are all the program
  uses. A scale about a pivot means: translate to the pivot, scale, translate
  back.
- Pixel `(i, j)` is the unit square with top-left corner `(i, j)`. A matrix
  paints it onto the pixel whose square is the image of that square
  (`Geometry.CellImage`; `Geometry.CellImageCorners` shows that the four
  corners go to four corners).

The `switch` in the source has a `default` branch that throws. Dafny's match
over the four-constructor `ActionKind` is exhaustive, so that branch cannot be
reached and has no counterpart in the model.

A mirror or flip is evidently meant to reflect about the exact centre of the
canvas, sending column `x` to `W-1-x` and row `y` to `H-1-y`. The code halves
the size with integer division to get the pivot, so for an odd size it sends
them to `W-2-x` (or `H-2-y`). The model follows the code as written, and
proves the corrected reflection alongside it. See Findings.

## Model

| member | source | states |
|---|---|---|
| `Geometry.ApplyConcat` | ImageManipulator/Program.cs:97-98 | Applying a concatenated matrix means applying its right factor first, then its left one. |
| `Geometry.ConcatAssociative` | ImageManipulator/Program.cs:97-98 | Successive canvas calls can be grouped in any way: concatenation is associative. |
| `Geometry.ConcatIdentity` | ImageManipulator/Program.cs:131-135 | A freshly created canvas's identity matrix is neutral, so the transformation's matrix is what is in force at drawing time. |
| `Geometry.RotationAboutConjugate` | ImageManipulator/Program.cs:97 | Rotation about a pivot equals: translate the pivot to the origin, rotate, translate back. The pivot is fixed. |
| `Geometry.ScalingAboutConjugate` | ImageManipulator/Program.cs:115 | Scaling about a pivot equals: translate, scale, translate back. The pivot is fixed. |
| `Geometry.CellImageCorners` | ImageManipulator/Program.cs:136 | For an axis-aligned matrix, the four corners of a source pixel map exactly onto the four corners of the output pixel it is painted on. |
| `Drawing.Canvas.constructor` | ImageManipulator/Program.cs:131-132 | A new surface has the requested size and the identity matrix. |
| `Drawing.Canvas.Translate` | ImageManipulator/Program.cs:98 | The new matrix is the old one concatenated with the translation. |
| `Drawing.Canvas.RotateDegrees` | ImageManipulator/Program.cs:97 | The new matrix is the old one concatenated with the rotation about the pivot. |
| `Drawing.Canvas.Scale` | ImageManipulator/Program.cs:115 | The new matrix is the old one concatenated with the scaling about the pivot. |
| `Transform.OutputSizeRule` | ImageManipulator/Program.cs:87-120 | Clockwise and CounterClockwise give the canvas the source's height as its width and its width as its height. Mirror and Flip keep the source's size. The canvas always has the source's two side lengths, and applying the rule again to the canvas size gives back the source size. |
| `Transform.TransformMatrix` | ImageManipulator/Program.cs:95-124 | Given the output size the branch captured, its canvas calls amount to an exact quarter turn of an outHeight x outWidth source (rotations). For the reflections, they amount to the exact reflection of a canvas whose reflected side is rounded down to even. |
| `Transform.Transformation` | ImageManipulator/Program.cs:90-128 | The branch's canvas calls leave the old matrix concatenated with that action's matrix, and change nothing else. |
| `Transform.Selected` | ImageManipulator/Program.cs:86-128 | The matrix in force when the source is drawn moves whole pixels onto whole pixels. Its linear part is a rotation matrix for Clockwise and CounterClockwise, and a reflection matrix, which reverses handedness, for Mirror and Flip. |
| `Transform.SelectedClosedForm` | ImageManipulator/Program.cs:90-128 | In terms of the source size, the matrix is the quarter turn of the W x H source for each rotation. For Mirror it is the exact reflection of a `2(W/2)` x H canvas, and for Flip of a W x `2(H/2)` canvas, with halving by integer division. |
| `Transform.PointMapping` | ImageManipulator/Program.cs:95-124 | A source point `(x, y)` is drawn at `(H-y, x)`, `(y, W-x)`, `(2(W/2)-x, y)` or `(x, 2(H/2)-y)`, depending on the action. |
| `Transform.CellMapping` | ImageManipulator/Program.cs:90-128 | Source pixel `(x, y)` is painted onto `(H-1-y, x)` (Clockwise), `(y, W-1-x)` (CounterClockwise), `(2(W/2)-1-x, y)` (Mirror) or `(x, 2(H/2)-1-y)` (Flip). |
| `Transform.RotationsBijective` | ImageManipulator/Program.cs:92-108 | Both rotations use an H x W canvas. They paint every source pixel inside it, no two on the same pixel, and leave no canvas pixel unpainted. |
| `Transform.MirrorBijectiveIff` | ImageManipulator/Program.cs:110-116 | Mirror maps the W x H source exactly onto the W x H canvas if and only if W is even or the image is empty. |
| `Transform.FlipBijectiveIff` | ImageManipulator/Program.cs:118-124 | Flip maps the source exactly onto the canvas if and only if H is even or the image is empty. |
| `Transform.MirrorDropsLastColumn` | ImageManipulator/Program.cs:113-116 | For odd W, source column W-1 is painted at column -1, and no source pixel reaches output column W-1. |
| `Transform.FlipDropsLastRow` | ImageManipulator/Program.cs:121-124 | For odd H, source row H-1 is painted at row -1, and no source pixel reaches output row H-1. |
| `Transform.RotationRoundTrip` | ImageManipulator/Program.cs:92-108 | Clockwise then CounterClockwise, in either order, restores the size. The composed matrix is the identity, and every pixel returns to its place. |
| `Transform.ReflectionInvolution` | ImageManipulator/Program.cs:110-124 | Mirror and Flip keep the size. Applied twice, each matrix is the identity as a map of the plane and of pixel positions, whatever the size. It says nothing about clipping: see the next row. |
| `Transform.ReflectTwiceRestoresIff` | ImageManipulator/Program.cs:110-124 | Two runs of Mirror give back the image on its canvas if and only if W is even or the image is empty. Two runs of Flip do so if and only if H is even or the image is empty. For an odd size, the first run paints the last column (or row) off the canvas. |
| `Transform.EvenReflectionRestores` | ImageManipulator/Program.cs:110-124 | When the reflected side is even, every source pixel lands inside the canvas on the first run and is painted back at its own place on the second. |
| `Transform.OddReflectionLosesPixel` | ImageManipulator/Program.cs:110-124 | When the reflected side is odd and the image is not empty, some source pixel is painted off the canvas on the first run, so two runs do not restore the image. |
| `Transform.ThreeCounterClockwiseIsClockwise` | ImageManipulator/Program.cs:92-108 | Three counter-clockwise turns, each on the previous output, compose to one clockwise turn. |
| `Transform.FourClockwiseIsIdentity` | ImageManipulator/Program.cs:92-99 | Four clockwise turns restore the size and compose to the identity. |
| `Transform.IntendedCellMapping` | ImageManipulator/Program.cs:113-124 | The corrected reflections send pixel `(x, y)` to `(W-1-x, y)` (Mirror) or `(x, H-1-y)` (Flip), for every size. |
| `Transform.IntendedReflectionExact` | ImageManipulator/Program.cs:113-124 | The corrected reflections map the source exactly onto the canvas for every size, and each undoes itself. |
| `Transform.IntendedAgreesWhenEven` | ImageManipulator/Program.cs:113-124 | When the side the reflection halves is even (W for Mirror, H for Flip), the corrected reflection is the code's own matrix. |
| `Program.OnExecute` | ImageManipulator/Program.cs:70-174 | A missing input gives -1 and nothing drawn, without decoding. An undecodable input gives -2 and nothing drawn. Otherwise the result is 0, drawn on a canvas of the selected size under the selected matrix. |
| `Program.OpenSourceTags` | ImageManipulator/Program.cs:151-152 | After the input stream is rewound, the source bridge holds the whole input file under the input's name, and the stream stays at position 0. |
| `Program.OpenOutputTags` | ImageManipulator/Program.cs:156-157 | The destination bridge over the encoded stream holds exactly the encoded bytes, under the output's name, open and rewound. |
| `Streams.Overwrite` | ImageManipulator/StreamFileAbstraction.cs:30 | Writing at a position puts the bytes there. The length becomes the larger of the old end and the write's end. Other bytes are kept, and gap bytes are zero. |
| `Streams.Stream.constructor` | ImageManipulator/Program.cs:156 | A stream over given bytes holds exactly those bytes, at position 0. |
| `Streams.Stream.Empty` | ImageManipulator/StreamFileAbstraction.cs:29 | A new memory stream is empty, at position 0. |
| `Streams.Stream.Remaining` | ImageManipulator/StreamFileAbstraction.cs:30 | What a read to the end returns: the bytes from the position to the end, or nothing when the position is at or past the end. |
| `Streams.Stream.Write` | ImageManipulator/StreamFileAbstraction.cs:30 | The contents become the overwrite at the position, and the position advances by the number of bytes written. |
| `Streams.Stream.CopyTo` | ImageManipulator/StreamFileAbstraction.cs:30 | The destination receives the source's remaining bytes at its own position. The source's contents are unchanged, and its position moves to the end. |
| `Streams.Stream.Seek` | ImageManipulator/StreamFileAbstraction.cs:31-32 | Seeking from the beginning sets the position and nothing else. |
| `Bridge.StreamFileAbstraction.constructor` | ImageManipulator/StreamFileAbstraction.cs:25-33 | The buffer holds the source's bytes from its position to its end. The source's contents and position are as before. The buffer is fresh and at position 0, the bridge is open, and `Name` is the given name. |
| `Bridge.StreamFileAbstraction.ReadStream` | ImageManipulator/StreamFileAbstraction.cs:43 | Returns the buffer whatever the close flag, and changes nothing. |
| `Bridge.StreamFileAbstraction.WriteStream` | ImageManipulator/StreamFileAbstraction.cs:48-60 | When open, returns the buffer. When closed, returns null. Either way the bridge is open afterwards, and the answer matches the state machine's. |
| `Bridge.StreamFileAbstraction.CloseStream` | ImageManipulator/StreamFileAbstraction.cs:66-70 | Rewinds the given stream, which may be any stream, and marks the bridge closed. No stream's contents change. |
| `Bridge.CloseThenReopen` | ImageManipulator/StreamFileAbstraction.cs:52-69 | A close followed by two write requests gets null first, then the buffer again. The bridge ends open, with the buffer rewound and its contents unchanged. |
| `Bridge.Nulls` | ImageManipulator/StreamFileAbstraction.cs:52-58 | The state machine's answers: one per request. |
| `Bridge.ClosedAfter` | ImageManipulator/StreamFileAbstraction.cs:52-69 | The flag after a sequence of requests: a close sets it (line 69), and a write request clears it whatever it was (lines 52-57). So after any requests, the flag is set exactly when the last request was a close. |
| `Bridge.NullsSnoc` | ImageManipulator/StreamFileAbstraction.cs:52-58 | A new request's answer depends only on the flag left by the requests before it. |
| `Bridge.NullsPrefix` | ImageManipulator/StreamFileAbstraction.cs:52-58 | Later requests do not change the answers to earlier ones. |
| `Bridge.NullIffJustClosed` | ImageManipulator/StreamFileAbstraction.cs:52-69 | Starting open, a write request is answered with null if and only if the request just before it was a close. |
| `Bridge.NoNullTwiceInARow` | ImageManipulator/StreamFileAbstraction.cs:57-58 | Two consecutive write requests are never both answered with null. |

## Left out

- Decoding, drawing and encoding (the codec, `SKBitmap.Decode`, `SKSurface`, `DrawBitmap`, `Snapshot`, `Encode`) belong to the image library. The decoder is a parameter of `Program.OnExecute`, and a bitmap is modelled only by its size. Pixel colours, colour type, alpha and colour space are not modelled. So a round trip is proved on pixel positions, not on pixel data.
- Drawing.Canvas.RotateDegrees: requires a whole number of quarter turns, because the library's floating-point sine and cosine are replaced by exact integers. The program only passes 90 and -90.
- Floating-point matrices in general: all canvas matrices are exact integer affine maps.
- Program.OnExecute: does not run the keep-tags branch (Program.cs:144-168). Everything between the two bridge constructions is done by the tag library: parsing, `GetTag`, `CopyTo`, `Save`. The unchecked `as CombinedImageTag` casts and the possible null dereference at lines 153 and 160 depend on that library too. The two bridge constructions of that branch are `Program.OpenSourceTags` and `Program.OpenOutputTags`.
- File-system access is not modelled: `File.Exists`, `File.OpenRead`, the output `FileStream`, `CopyToAsync`, `FlushAsync` and cancellation. Input existence and contents enter `Program.OnExecute` as an optional byte sequence.
- Command-line plumbing is not modelled: argument parsing, the help option, `Main`'s exception report, the -500 exit code and the stopwatch.
- Streams.Stream.CopyTo: treated as one step. The library's chunked copy loop is not shown, and copying a stream into itself is excluded. The bridge always copies into a fresh buffer.
- Streams.Stream.Seek: takes a non-negative offset from the beginning. The exceptions for unseekable streams and negative offsets are not modelled. Stream positions are unbounded naturals, not 64-bit.
- Bridge.StreamFileAbstraction.WriteStream: the ghost trace records only write and close requests. Read requests do not touch the close flag.

## Findings

| source | as written | input that shows it | evidently intended | confidence | as-written member | corrected member |
|---|---|---|---|---|---|---|
| ImageManipulator/Program.cs:115 | The Mirror pivot is the output width halved with integer division, so pixel column x goes to `2(W/2)-1-x`. | Width 3, height 1: source column 2 is painted at column -1 (off the canvas), and output column 2 gets no pixel. | Reflect about the exact centre: column x goes to `W-1-x`. | not executed | `Transform.MirrorDropsLastColumn` | `Transform.IntendedReflectionExact` |
| ImageManipulator/Program.cs:123 | The Flip pivot is the output height halved with integer division, so pixel row y goes to `2(H/2)-1-y`. | Width 1, height 3: source row 2 is painted at row -1, and output row 2 gets no pixel. | Reflect about the exact centre: row y goes to `H-1-y`. | not executed | `Transform.FlipDropsLastRow` | `Transform.IntendedReflectionExact` |

The corrected reflection, `Transform.IntendedMatrix`, translates by the full
size and then scales by -1. That equals scaling about the exact half-size
pivot, and it is an integer map even when the pivot falls between two pixels.
`Program.OnExecute` keeps the matrix as written, because it models the
program as it is.

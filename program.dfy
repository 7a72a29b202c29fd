/** One run of the tool: the exit code, the canvas the source bitmap is
    painted onto, and the two metadata bridges of the keep-tags branch.
    Opening files, decoding and encoding are the image library's and the
    file system's; they enter as parameters. */
module Program {
  import opened Geometry
  import opened ActionKinds
  import opened Transform
  import Drawing
  import opened Streams
  import Bridge

  datatype Option<T> = None | Some(value: T)

  /** A decoded bitmap, as far as its size. */
  datatype Bitmap = Bitmap(width: nat, height: nat)

  /** The output canvas and the matrix in force when the bitmap is drawn on
      it: source pixel c is painted onto CellImage(matrix, c). */
  datatype Rendering = Rendering(width: nat, height: nat, matrix: Affine)

  const FileNotFound: int := -1
  const NotAnImage: int := -2
  const Success: int := 0

  /** `input` is the file's bytes, or None when it does not exist; `decode`
      is the image library's decoder. A missing file is reported without
      decoding; an undecodable one is reported without drawing; otherwise the
      source is drawn under the selected transform and the run succeeds. */
  method OnExecute(action: ActionKind, input: Option<seq<byte>>, decode: seq<byte> -> Option<Bitmap>)
    returns (code: int, rendering: Option<Rendering>)
    ensures input.None? ==> code == FileNotFound && rendering.None?
    ensures input.Some? && decode(input.value).None? ==> code == NotAnImage && rendering.None?
    ensures input.Some? && decode(input.value).Some? ==>
              var bitmap := decode(input.value).value;
              var size := OutputSize(action, bitmap.width, bitmap.height);
              code == Success &&
              rendering == Some(Rendering(size.width, size.height, Selected(action, bitmap.width, bitmap.height)))
  {
    if input.None? {
      return FileNotFound, None;
    }
    var bitmap := decode(input.value);
    if bitmap.None? {
      return NotAnImage, None;
    }
    var size := OutputSize(action, bitmap.value.width, bitmap.value.height);
    var canvas := new Drawing.Canvas(size.width, size.height);
    Transformation(action, size.width, size.height, canvas);
    ConcatIdentity(TransformMatrix(action, size.width, size.height));
    code, rendering := Success, Some(Rendering(canvas.width, canvas.height, canvas.matrix));
  }

  /** The source-side bridge: rewinds the input stream, so the bridge holds
      the whole input file under the input's name. */
  method OpenSourceTags(inputName: string, inputStream: Stream) returns (bridge: Bridge.StreamFileAbstraction)
    modifies inputStream
    ensures fresh(bridge) && fresh(bridge.memoryStream) && bridge.Valid()
    ensures bridge.Name == inputName && !bridge.isClosed
    ensures bridge.memoryStream.data == old(inputStream.data) && bridge.memoryStream.position == 0
    ensures inputStream.data == old(inputStream.data) && inputStream.position == 0
  {
    inputStream.Seek(0);
    bridge := new Bridge.StreamFileAbstraction(inputName, inputStream);
  }

  /** The destination-side bridge: over a fresh stream on the encoded
      bytes, under the output's name, so its buffer starts as those bytes. */
  method OpenOutputTags(outputName: string, encoded: seq<byte>) returns (bridge: Bridge.StreamFileAbstraction)
    ensures fresh(bridge) && bridge.Valid() && bridge.Name == outputName && !bridge.isClosed
    ensures bridge.memoryStream.data == encoded && bridge.memoryStream.position == 0
  {
    var dataStream := new Stream(encoded);
    bridge := new Bridge.StreamFileAbstraction(outputName, dataStream);
  }
}

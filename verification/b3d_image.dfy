/** The B3D <-> PNG header swap of the Netsoftware image tool: a B3D image is a 14-byte
    proprietary header followed by PNG data without its first 16 bytes. Converting to PNG puts
    the standard 16-byte PNG prefix in place of the header and keeps the header on the side;
    converting back puts the kept header in place of the prefix. */
module B3dImage {
  import opened Wrappers
  import opened Bytes

  /** PNG_HEADER: the 8-byte PNG signature, then the length (13) and type ("IHDR") of the first chunk. */
  const PngHeader: seq<byte> :=
    [0x89, 0x50, 0x4E, 0x47, 0x0D, 0x0A, 0x1A, 0x0A, 0x00, 0x00, 0x00, 0x0D, 0x49, 0x48, 0x44, 0x52]

  const B3dHeaderSize: nat := 14
  const PngHeaderSize: nat := 16

  /** The ways the two conversions refuse their input. */
  datatype ImageError =
    | TooSmall      // the B3D file has no byte after its header
    | NotConverted  // the PNG file does not start with PNG_HEADER
    | NoHeader      // the kept B3D header (the ".hdr" file) is missing

  /** What b3d_to_png writes: the PNG file and the kept header. */
  datatype Converted = Converted(png: seq<byte>, header: seq<byte>)

  /** `data.startswith(PNG_HEADER)`. */
  predicate HasPngHeader(data: seq<byte>) {
    |data| >= PngHeaderSize && data[..PngHeaderSize] == PngHeader
  }

  /** b3d_to_png on the bytes of a B3D file. */
  function B3dToPng(data: seq<byte>): (r: Result<Converted, ImageError>)
    ensures r.Err? <==> |data| <= B3dHeaderSize
    ensures r.Err? ==> r.error == TooSmall
    ensures r.Ok? ==> HasPngHeader(r.value.png) && |r.value.png| == |data| + 2
    ensures r.Ok? ==> |r.value.header| == B3dHeaderSize && r.value.header + r.value.png[PngHeaderSize..] == data
  {
    if |data| <= B3dHeaderSize then Err(TooSmall)
    else Ok(Converted(PngHeader + data[B3dHeaderSize..], data[..B3dHeaderSize]))
  }

  /** png_to_b3d on the bytes of a PNG file, with the kept header if there is one; the PNG
      prefix is checked before the header is looked for. */
  function PngToB3d(data: seq<byte>, header: Option<seq<byte>>): (r: Result<seq<byte>, ImageError>)
    ensures r.Ok? <==> HasPngHeader(data) && header.Some?
    ensures !HasPngHeader(data) ==> r == Err(NotConverted)
    ensures HasPngHeader(data) && header.None? ==> r == Err(NoHeader)
    ensures r.Ok? ==> |r.value| == |header.value| + |data| - PngHeaderSize
    ensures r.Ok? ==> r.value[..|header.value|] == header.value && r.value[|header.value|..] == data[PngHeaderSize..]
  {
    if !HasPngHeader(data) then Err(NotConverted)
    else if header.None? then Err(NoHeader)
    else Ok(header.value + data[PngHeaderSize..])
  }

  /** Converting to PNG and back with the kept header gives the original B3D bytes. */
  lemma B3dPngRoundTrip(data: seq<byte>)
    requires |data| > B3dHeaderSize
    ensures B3dToPng(data).Ok?
    ensures PngToB3d(B3dToPng(data).value.png, Some(B3dToPng(data).value.header)) == Ok(data)
  {
    var c := B3dToPng(data).value;
    assert c.png[PngHeaderSize..] == data[B3dHeaderSize..];
    assert c.header + c.png[PngHeaderSize..] == data;
  }

  /** Converting a converted PNG back with a 14-byte header, then to PNG again, gives the same
      PNG and the same header. */
  lemma PngB3dRoundTrip(data: seq<byte>, header: seq<byte>)
    requires HasPngHeader(data) && |data| > PngHeaderSize && |header| == B3dHeaderSize
    ensures PngToB3d(data, Some(header)).Ok?
    ensures B3dToPng(PngToB3d(data, Some(header)).value) == Ok(Converted(data, header))
  {
    var b := PngToB3d(data, Some(header)).value;
    assert b[B3dHeaderSize..] == data[PngHeaderSize..];
    assert PngHeader + data[PngHeaderSize..] == data by {
      assert data == data[..PngHeaderSize] + data[PngHeaderSize..];
    }
  }
}

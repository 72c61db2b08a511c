/** The four-byte container and its raw file format: an ASCII header line
    `rgba8888 <width> <height>` ended by 0x0A, then the pixel bytes as they
    are. */
module Rgba8888Image {
  import opened Wrappers
  import opened Text
  import opened AbstractImage

  /** The constructor: four bytes per pixel, mode "RGBA", no source file. */
  function New(data: seq<Byte>, width: int, height: int): (img: Image)
    ensures img.BytesPerPixel() == 4 && img.format.Mode() == "RGBA"
    ensures img.data == data && img.width == width && img.height == height
    ensures img.srcFilePath.None? && img.srcFileFormat.None?
  {
    Image(Rgba8888, data, width, height, None, None)
  }

  /** The `srcFileFormat` tag of a loaded image. */
  const SourceFormat: string := "RGBA8888"

  /** The format tag and its separator, the ASCII bytes of `"rgba8888 "`. */
  function Tag(): (t: seq<Byte>)
    ensures |t| == 9
  {
    [0x72, 0x67, 0x62, 0x61, 0x38, 0x38, 0x38, 0x38, Space]
  }

  /** The header line `save` writes, terminator included. */
  function Header(width: int, height: int): (h: seq<Byte>)
    ensures Tag() <= h && h[|h| - 1] == NewLine
  {
    Tag() + IntCodes(width) + [Space] + IntCodes(height) + [NewLine]
  }

  /** `save`: the header line followed by the buffer, byte for byte. The
      header's only 0x0A is its last byte. */
  function Save(img: Image): (bytes: seq<Byte>)
    requires img.format == Rgba8888
    ensures |bytes| == |Header(img.width, img.height)| + |img.data|
    ensures bytes[..|Header(img.width, img.height)|] == Header(img.width, img.height)
    ensures bytes[|Header(img.width, img.height)|..] == img.data
    ensures Find(bytes, NewLine) == |Header(img.width, img.height)| - 1
  {
    var header := Header(img.width, img.height);
    HeaderHasOneNewLine(img.width, img.height);
    FindAt(header + img.data, NewLine, |header| - 1);
    header + img.data
  }

  lemma HeaderHasOneNewLine(width: int, height: int)
    ensures var h := Header(width, height); h[|h| - 1] == NewLine && NewLine !in h[..|h| - 1]
  {
    var h := Header(width, height);
    var w, t := IntCodes(width), IntCodes(height);
    assert h[..|h| - 1] == Tag() + w + [Space] + t;
    NoNewLineInNumeral(width);
    NoNewLineInNumeral(height);
    assert NewLine !in Tag();
  }

  /** `str(n)` is a sign and digits, so it holds no 0x0A. */
  lemma NoNewLineInNumeral(n: int)
    ensures NewLine !in IntCodes(n)
  {
  }

  /** `bytes.find(b)`: the first position holding `b`, or -1. */
  function Find(s: seq<Byte>, b: Byte): (r: int)
    ensures -1 <= r < |s|
    ensures r >= 0 ==> s[r] == b && b !in s[..r]
    ensures r == -1 <==> b !in s
    decreases |s|
  {
    if |s| == 0 then -1
    else if s[0] == b then 0
    else
      var r := Find(s[1..], b);
      assert s[1..][..if r < 0 then 0 else r] == s[1..1 + if r < 0 then 0 else r];
      if r < 0 then -1 else r + 1
  }

  /** The first occurrence is where `find` stops. */
  lemma FindAt(s: seq<Byte>, b: Byte, k: nat)
    requires k < |s| && s[k] == b && b !in s[..k]
    ensures Find(s, b) == k
  {
  }

  /** The header line and the body as `load` slices them around the first
      0x0A. Without one, `find` gives -1, so the header is every byte but the
      last and the body is the whole input. */
  function SplitHeader(bytes: seq<Byte>): (parts: (seq<Byte>, seq<Byte>))
    ensures NewLine in bytes ==> parts.0 + [NewLine] + parts.1 == bytes && NewLine !in parts.0
    ensures NewLine !in bytes ==>
      parts.1 == bytes && parts.0 == (if |bytes| == 0 then [] else bytes[..|bytes| - 1])
  {
    var index := Find(bytes, NewLine);
    var header := if index >= 0 then bytes[..index] else if |bytes| == 0 then [] else bytes[..|bytes| - 1];
    var body := bytes[index + 1..];
    assert index >= 0 ==> bytes == bytes[..index] + [NewLine] + bytes[index + 1..];
    (header, body)
  }

  /** `re.match(b'rgba8888 ([\x30-\x39]+) ([\x30-\x39]+)', header)`: a prefix
      match giving width and height; anything after the height is ignored. */
  function HeaderFields(header: seq<Byte>): (r: Option<(nat, nat)>)
    ensures r.Some? <==>
      Tag() <= header && RunThen(header[|Tag()|..], Space) && StartsWithDigit(AfterRun(header[|Tag()|..]))
    ensures r.Some? ==> Tag() <= header && |header| >= |Tag()| + 3 && IsDigit(header[|Tag()|])
  {
    var r0 :- Prefix(header, Tag());
    var w :- Number(r0);
    var r1 :- Literal(w.rest, Space);
    var h :- Number(r1);
    Some((w.value, h.value))
  }

  /** `load`: the header gives width and height, the body becomes the buffer
      unchecked against them; a header that does not match raises. */
  function Load(bytes: seq<Byte>, filePath: string): (r: Result<Image>)
    ensures r.Ok? <==> HeaderFields(SplitHeader(bytes).0).Some?
    ensures r.Ok? ==> r.value.format == Rgba8888 && r.value.width >= 0 && r.value.height >= 0
    ensures r.Ok? ==> r.value.srcFilePath == Some(filePath) && r.value.srcFileFormat == Some(SourceFormat)
    ensures r.Ok? ==> (r.value.width, r.value.height) == HeaderFields(SplitHeader(bytes).0).value
    ensures r.Ok? ==> r.value.data == SplitHeader(bytes).1
  {
    var parts := SplitHeader(bytes);
    match HeaderFields(parts.0)
    case None => Err("Invalid header for a rgba8888 file type")
    case Some(fields) =>
      Ok(New(parts.1, fields.0, fields.1).(srcFilePath := Some(filePath), srcFileFormat := Some(SourceFormat)))
  }

  /** The buffer `load` keeps is what follows the first 0x0A, or the whole
      input when there is none; either way a suffix of the input. */
  lemma LoadBody(bytes: seq<Byte>, filePath: string)
    requires Load(bytes, filePath).Ok?
    ensures var data := Load(bytes, filePath).value.data;
      && data == bytes[|bytes| - |data|..]
      && (NewLine in bytes ==> data == bytes[Find(bytes, NewLine) + 1..])
      && (NewLine !in bytes ==> data == bytes)
  {
    var data := Load(bytes, filePath).value.data;
    assert data == SplitHeader(bytes).1;
    if NewLine in bytes {
      var index := Find(bytes, NewLine);
      SplitAt(bytes, index);
      assert data == bytes[index + 1..];
    }
  }

  /** Reading back what `save` wrote restores width, height and buffer, even
      when the buffer holds 0x0A bytes. */
  lemma LoadSave(img: Image, filePath: string)
    requires img.format == Rgba8888 && img.width >= 0 && img.height >= 0
    ensures Load(Save(img), filePath)
      == Ok(img.(srcFilePath := Some(filePath), srcFileFormat := Some(SourceFormat)))
  {
    SaveSplits(img);
    HeaderFieldsOf(img.width, img.height);
  }

  /** `load` cuts what `save` wrote back into the header line and the
      buffer. */
  lemma SaveSplits(img: Image)
    requires img.format == Rgba8888 && img.width >= 0 && img.height >= 0
    ensures SplitHeader(Save(img))
      == (Tag() + DigitsOf(img.width) + [Space] + DigitsOf(img.height), img.data)
  {
    var bytes := Save(img);
    var header := Header(img.width, img.height);
    var line := Tag() + DigitsOf(img.width) + [Space] + DigitsOf(img.height);
    var n := |header|;
    SplitAt(bytes, n - 1);
    assert header == line + [NewLine];
    assert bytes[..n - 1] == bytes[..n][..n - 1] == header[..n - 1] == line;
  }

  /** With its first 0x0A at `index`, the input splits around it. */
  lemma SplitAt(bytes: seq<Byte>, index: nat)
    requires Find(bytes, NewLine) == index
    ensures SplitHeader(bytes) == (bytes[..index], bytes[index + 1..])
  {
  }

  /** The header match on any digit runs: each group is read with `int`
      (leading zeros allowed), and whatever follows the height, if it does
      not continue the run, is ignored. */
  lemma HeaderFieldsOfRuns(d1: seq<Byte>, d2: seq<Byte>, rest: seq<Byte>)
    requires |d1| > 0 && AllDigits(d1) && |d2| > 0 && AllDigits(d2)
    requires |rest| == 0 || !IsDigit(rest[0])
    ensures HeaderFields(Tag() + d1 + [Space] + d2 + rest) == Some((Value(d1), Value(d2)))
  {
    var after := d1 + ([Space] + (d2 + rest));
    Regroup(d1, d2, rest);
    assert Prefix(Tag() + after, Tag()) == Some(after);
    NumberOfRun(d1, [Space] + (d2 + rest));
    assert Literal([Space] + (d2 + rest), Space) == Some(d2 + rest);
    NumberOfRun(d2, rest);
  }

  lemma Regroup(d1: seq<Byte>, d2: seq<Byte>, rest: seq<Byte>)
    ensures Tag() + d1 + [Space] + d2 + rest == Tag() + (d1 + ([Space] + (d2 + rest)))
  {
  }

  lemma HeaderFieldsOf(width: nat, height: nat)
    ensures HeaderFields(Tag() + DigitsOf(width) + [Space] + DigitsOf(height)) == Some((width, height))
  {
    var rest := [Space] + DigitsOf(height);
    AfterTag(width, height);
    NumberOfDigits(width, rest);
    HeightField(height);
  }

  lemma AfterTag(width: nat, height: nat)
    ensures Prefix(Tag() + DigitsOf(width) + [Space] + DigitsOf(height), Tag())
      == Some(DigitsOf(width) + ([Space] + DigitsOf(height)))
  {
    assert Tag() + DigitsOf(width) + [Space] + DigitsOf(height) == Tag() + (DigitsOf(width) + ([Space] + DigitsOf(height)));
  }

  lemma HeightField(height: nat)
    ensures Literal([Space] + DigitsOf(height), Space) == Some(DigitsOf(height))
    ensures Number(DigitsOf(height)) == Some(Scanned(height, []))
  {
    NumberOfDigits(height, []);
    assert DigitsOf(height) + [] == DigitsOf(height);
  }

  /** A header line cut short by the missing 0x0A still matches: the last
      digit of the height is dropped and the header text itself becomes the
      pixel data. */
  lemma LoadTruncatedHeader(filePath: string)
    ensures Load(Ascii("rgba8888 12 34"), filePath)
      == Ok(Image(Rgba8888, Ascii("rgba8888 12 34"), 12, 3, Some(filePath), Some(SourceFormat)))
  {
    var bytes := Ascii("rgba8888 12 34");
    TruncatedHeaderBytes();
    assert SplitHeader(bytes).0 == Tag() + DigitsOf(12) + [Space] + DigitsOf(3);
    HeaderFieldsOf(12, 3);
  }

  lemma TruncatedHeaderBytes()
    ensures NewLine !in Ascii("rgba8888 12 34")
    ensures Ascii("rgba8888 12 34")[..13] == Tag() + DigitsOf(12) + [Space] + DigitsOf(3)
  {
    var bytes := Ascii("rgba8888 12 34");
    assert DigitsOf(12) == [0x31, 0x32];
    assert DigitsOf(3) == [0x33];
    assert bytes == Tag() + [0x31, 0x32, Space, 0x33, 0x34];
  }

  /** `load` as evidently intended: an input without the header terminator is
      rejected instead of being read with a truncated header. */
  function LoadStrict(bytes: seq<Byte>, filePath: string): (r: Result<Image>)
    ensures r.Ok? ==> NewLine in bytes
    ensures r.Ok? ==> r.value.format == Rgba8888 && r.value.width >= 0 && r.value.height >= 0
    ensures r.Ok? ==> r.value.srcFilePath == Some(filePath) && r.value.srcFileFormat == Some(SourceFormat)
    ensures r.Ok? ==> r.value.data == bytes[Find(bytes, NewLine) + 1..]
    ensures NewLine in bytes ==> r == Load(bytes, filePath)
  {
    if NewLine !in bytes then Err("Invalid header for a rgba8888 file type")
    else Load(bytes, filePath)
  }

  /** The strict reader still reads back everything `save` writes. */
  lemma LoadStrictSave(img: Image, filePath: string)
    requires img.format == Rgba8888 && img.width >= 0 && img.height >= 0
    ensures LoadStrict(Save(img), filePath)
      == Ok(img.(srcFilePath := Some(filePath), srcFileFormat := Some(SourceFormat)))
  {
    LoadSave(img, filePath);
    var bytes := Save(img);
    assert bytes[Find(bytes, NewLine)] == NewLine;
  }

  /** The strict reader turns away the cut-short header that `load` accepts. */
  lemma LoadStrictRejectsTruncated(filePath: string)
    ensures LoadStrict(Ascii("rgba8888 12 34"), filePath).Err?
    ensures Load(Ascii("rgba8888 12 34"), filePath).Ok?
  {
    TruncatedHeaderBytes();
    LoadTruncatedHeader(filePath);
  }
}

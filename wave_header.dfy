/** The 80-byte RIFF/WAVE header that fix_wave_header.swift writes over a
    zeroed header block: a `RIFF` chunk descriptor, a zero-filled `JUNK` chunk
    that keeps the header exactly 80 bytes long, a 16-byte PCM `fmt ` chunk
    (24-bit mono, 44.1 kHz), and the `data` chunk header. */
module WaveHeader {
  import opened Bytes
  import opened DataBuffer
  import opened Padding

  /** `headerSize`: the length of the zeroed block and of the header written over it. */
  const HeaderSize: nat := 0x50
  /** `junkSize`: the payload length of the `JUNK` chunk. */
  const JunkSize: Int32 := 0x1c

  /** The `fmt ` chunk's payload length and fields (`WAVE_FORMAT_PCM` layout). */
  const FmtChunkSize: Int32 := 16
  const FormatPcm: Int16 := 1
  const Channels: Int16 := 1
  const SampleRate: Int32 := 44100
  const ByteRate: Int32 := 44100 * 3
  const BlockAlign: Int16 := 3
  const BitsPerSample: Int16 := 24

  /** The four-character chunk tags, as ASCII bytes. */
  const RiffTag: seq<Byte> := [0x52, 0x49, 0x46, 0x46]
  const WaveTag: seq<Byte> := [0x57, 0x41, 0x56, 0x45]
  const JunkTag: seq<Byte> := [0x4a, 0x55, 0x4e, 0x4b]
  const FmtTag: seq<Byte> := [0x66, 0x6d, 0x74, 0x20]
  const DataTag: seq<Byte> := [0x64, 0x61, 0x74, 0x61]

  /** The tag constants are the ASCII encodings of the strings the program appends. */
  lemma TagsAreAscii()
    ensures Ascii("RIFF") == Some(RiffTag)
    ensures Ascii("WAVE") == Some(WaveTag)
    ensures Ascii("JUNK") == Some(JunkTag)
    ensures Ascii("fmt ") == Some(FmtTag)
    ensures Ascii("data") == Some(DataTag)
  {
    AsciiOfTag("RIFF", RiffTag);
    AsciiOfTag("WAVE", WaveTag);
    AsciiOfTag("JUNK", JunkTag);
    AsciiOfTag("fmt ", FmtTag);
    AsciiOfTag("data", DataTag);
  }

  lemma AsciiOfTag(s: string, t: seq<Byte>)
    requires |s| == |t| == 4
    requires s[0] as int == t[0] && s[1] as int == t[1] && s[2] as int == t[2] && s[3] as int == t[3]
    requires t[0] < 0x80 && t[1] < 0x80 && t[2] < 0x80 && t[3] < 0x80
    ensures Ascii(s) == Some(t)
  {
    assert forall i :: 0 <= i < 4 ==> s[i] as int < 0x80 && s[i] as int == t[i] by {
      forall i | 0 <= i < 4
        ensures s[i] as int < 0x80 && s[i] as int == t[i]
      {
        if i == 0 {} else if i == 1 {} else if i == 2 {} else {}
      }
    }
    assert Ascii(s).Some?;
    assert Ascii(s).value == t;
  }

  /** The format parameters the `fmt ` chunk carries. */
  datatype WaveFormat = WaveFormat(
    formatTag: Int16, channels: Int16, sampleRate: Int32,
    byteRate: Int32, blockAlign: Int16, bitsPerSample: Int16)

  /** 24-bit mono PCM at 44100 Hz: the only format this program writes. */
  const Pcm24Mono: WaveFormat :=
    WaveFormat(FormatPcm, Channels, SampleRate, ByteRate, BlockAlign, BitsPerSample)

  /** The variable content of a header: the `RIFF` size, the format and the `data` size. */
  datatype HeaderFields = HeaderFields(riffSize: Int32, format: WaveFormat, dataSize: Int32)

  /** The header bytes for a given `RIFF` size and `data` size. */
  function Header(riffSize: Int32, dataSize: Int32): (h: seq<Byte>)
    ensures |h| == HeaderSize
  {
    RiffTag + LE32(riffSize) + WaveTag
    + JunkTag + LE32(JunkSize) + Zeros(JunkSize)
    + FmtTag + LE32(FmtChunkSize) + LE16(FormatPcm) + LE16(Channels)
    + LE32(SampleRate) + LE32(ByteRate) + LE16(BlockAlign) + LE16(BitsPerSample)
    + DataTag + LE32(dataSize)
  }

  /** Where each field of the header sits. */
  lemma HeaderLayout(riffSize: Int32, dataSize: Int32)
    ensures var h := Header(riffSize, dataSize);
      && h[0..4] == RiffTag
      && h[4..8] == LE32(riffSize)
      && h[8..12] == WaveTag
      && h[12..16] == JunkTag
      && h[16..20] == LE32(JunkSize)
      && h[20..48] == Zeros(JunkSize)
      && h[48..52] == FmtTag
      && h[52..56] == LE32(FmtChunkSize)
      && h[56..58] == LE16(FormatPcm)
      && h[58..60] == LE16(Channels)
      && h[60..64] == LE32(SampleRate)
      && h[64..68] == LE32(ByteRate)
      && h[68..70] == LE16(BlockAlign)
      && h[70..72] == LE16(BitsPerSample)
      && h[72..76] == DataTag
      && h[76..80] == LE32(dataSize)
  {
    // The header's prefixes, each one field longer than the last.
    var h := Header(riffSize, dataSize);
    var p1 := RiffTag;
    var p2 := p1 + LE32(riffSize);
    var p3 := p2 + WaveTag;
    var p4 := p3 + JunkTag;
    var p5 := p4 + LE32(JunkSize);
    var p6 := p5 + Zeros(JunkSize);
    var p7 := p6 + FmtTag;
    var p8 := p7 + LE32(FmtChunkSize);
    var p9 := p8 + LE16(FormatPcm);
    var p10 := p9 + LE16(Channels);
    var p11 := p10 + LE32(SampleRate);
    var p12 := p11 + LE32(ByteRate);
    var p13 := p12 + LE16(BlockAlign);
    var p14 := p13 + LE16(BitsPerSample);
    var p15 := p14 + DataTag;
    assert h == p15 + LE32(dataSize);
    PrefixField(h, p15, LE32(dataSize));
    PrefixField(h, p14, DataTag);
    PrefixField(h, p13, LE16(BitsPerSample));
    PrefixField(h, p12, LE16(BlockAlign));
    PrefixField(h, p11, LE32(ByteRate));
    PrefixField(h, p10, LE32(SampleRate));
    PrefixField(h, p9, LE16(Channels));
    PrefixField(h, p8, LE16(FormatPcm));
    PrefixField(h, p7, LE32(FmtChunkSize));
    PrefixField(h, p6, FmtTag);
    PrefixField(h, p5, Zeros(JunkSize));
    PrefixField(h, p4, LE32(JunkSize));
    PrefixField(h, p3, JunkTag);
    PrefixField(h, p2, WaveTag);
    PrefixField(h, p1, LE32(riffSize));
  }

  /** When `prefix + field` begins `whole`, so does `prefix`, and `field` sits right after it. */
  lemma PrefixField(whole: seq<Byte>, prefix: seq<Byte>, field: seq<Byte>)
    requires |prefix + field| <= |whole| && whole[..|prefix + field|] == prefix + field
    ensures whole[..|prefix|] == prefix
    ensures whole[|prefix|..|prefix| + |field|] == field
  {
  }

  /** A reader of the header shape this program writes: checks the tags, the
      fixed chunk sizes and the zero `JUNK` payload, and reads the variable fields. */
  function ParseHeader(h: seq<Byte>): Option<HeaderFields>
  {
    if |h| != HeaderSize then None
    else if h[0..4] != RiffTag || h[8..12] != WaveTag || h[12..16] != JunkTag
      || DecodeLE32(h[16..20]) != JunkSize || h[20..48] != Zeros(JunkSize)
      || h[48..52] != FmtTag || DecodeLE32(h[52..56]) != FmtChunkSize
      || h[72..76] != DataTag
    then None
    else
      var format := WaveFormat(
        DecodeLE16(h[56..58]), DecodeLE16(h[58..60]), DecodeLE32(h[60..64]),
        DecodeLE32(h[64..68]), DecodeLE16(h[68..70]), DecodeLE16(h[70..72]));
      Some(HeaderFields(DecodeLE32(h[4..8]), format, DecodeLE32(h[76..80])))
  }

  /** Reading a written header gives back the sizes it was written with and the PCM format. */
  lemma ParseHeaderOfHeader(riffSize: Int32, dataSize: Int32)
    ensures ParseHeader(Header(riffSize, dataSize)) == Some(HeaderFields(riffSize, Pcm24Mono, dataSize))
  {
    HeaderLayout(riffSize, dataSize);
    LE32RoundTrip(riffSize);
    LE32RoundTrip(dataSize);
    LE32RoundTrip(JunkSize);
    LE32RoundTrip(FmtChunkSize);
    LE16RoundTrip(FormatPcm);
    LE16RoundTrip(Channels);
    LE32RoundTrip(SampleRate);
    LE32RoundTrip(ByteRate);
    LE16RoundTrip(BlockAlign);
    LE16RoundTrip(BitsPerSample);
  }

  /** Conversely, every 80 bytes that read as a 24-bit mono PCM header are
      exactly the header written for the sizes read. */
  lemma HeaderOfParseHeader(h: seq<Byte>, fields: HeaderFields)
    requires ParseHeader(h) == Some(fields) && fields.format == Pcm24Mono
    ensures h == Header(fields.riffSize, fields.dataSize)
  {
    // Each field's bytes are the encoding of the value read from them ...
    LE32OfDecode(h[4..8]);
    LE32OfDecode(h[16..20]);
    LE32OfDecode(h[52..56]);
    LE16OfDecode(h[56..58]);
    LE16OfDecode(h[58..60]);
    LE32OfDecode(h[60..64]);
    LE32OfDecode(h[64..68]);
    LE16OfDecode(h[68..70]);
    LE16OfDecode(h[70..72]);
    LE32OfDecode(h[76..80]);
    // ... and the header is its fields put back together, left to right.
    TakeSplit(h, 4, 8);
    TakeSplit(h, 8, 12);
    TakeSplit(h, 12, 16);
    TakeSplit(h, 16, 20);
    TakeSplit(h, 20, 48);
    TakeSplit(h, 48, 52);
    TakeSplit(h, 52, 56);
    TakeSplit(h, 56, 58);
    TakeSplit(h, 58, 60);
    TakeSplit(h, 60, 64);
    TakeSplit(h, 64, 68);
    TakeSplit(h, 68, 70);
    TakeSplit(h, 70, 72);
    TakeSplit(h, 72, 76);
    TakeSplit(h, 76, 80);
    assert h[..4] == h[0..4];
    assert h == h[..80];
  }

  lemma TakeSplit(s: seq<Byte>, i: nat, j: nat)
    requires i <= j <= |s|
    ensures s[..j] == s[..i] + s[i..j]
  {
  }

  /** Why the program could stop with a runtime trap before writing anything. */
  datatype Trap =
    | FileCountOverflow       // the file length does not fit the Int32 it is converted to
    | PayloadSliceOutOfRange  // the payload slice from offset 80 starts past the end of the file

  datatype Result<T> = Success(value: T) | Failure(trap: Trap)

  /** The header the program builds for a zero-headed file, or the trap it hits:
      the `RIFF` size is the file length minus 8 and the `data` size is the
      payload length without trailing padding, in whole 3-byte samples. */
  function HeaderFor(fileData: seq<Byte>): (r: Result<seq<Byte>>)
    ensures r.Failure? <==> |fileData| < HeaderSize || |fileData| > Int32Max
    ensures r == Failure(FileCountOverflow) <==> |fileData| > Int32Max
    ensures r.Success? ==> |r.value| == HeaderSize
  {
    if |fileData| > Int32Max then Failure(FileCountOverflow)
    else if |fileData| < HeaderSize then Failure(PayloadSliceOutOfRange)
    else
      DataLengthFits(fileData);
      var dataLength := CountExcludingPadding(fileData[HeaderSize..], BlockAlign);
      Success(Header(|fileData| - 8, dataLength))
  }

  /** `Int32(countExcludingPadding(...))` cannot trap: the resolved length is at
      most 2 more than the payload, which is 80 bytes shorter than the file. */
  lemma DataLengthFits(fileData: seq<Byte>)
    requires HeaderSize <= |fileData| <= Int32Max
    ensures CountExcludingPadding(fileData[HeaderSize..], BlockAlign) <= Int32Max
  {
  }

  /** The header builder of `fixIfBroken(file:)`: appends each field in turn to
      an empty `Data`, trapping where the Swift conversions and slices would. */
  method BuildHeader(fileData: seq<Byte>) returns (r: Result<seq<Byte>>)
    ensures r == HeaderFor(fileData)
  {
    TagsAreAscii();
    var header := new Data();
    header.AppendString("RIFF");
    assert header.bytes == RiffTag;
    if |fileData| > Int32Max {
      return Failure(FileCountOverflow);
    }
    header.AppendInt32(|fileData| - 8);
    header.AppendString("WAVE");
    header.AppendString("JUNK");
    header.AppendInt32(JunkSize);
    header.AppendData(Zeros(JunkSize));

    header.AppendString("fmt ");
    header.AppendInt32(FmtChunkSize);
    header.AppendInt16(FormatPcm);
    header.AppendInt16(Channels);

    header.AppendInt32(SampleRate);
    header.AppendInt32(ByteRate);
    header.AppendInt16(BlockAlign);
    header.AppendInt16(BitsPerSample);

    header.AppendString("data");
    if |fileData| < HeaderSize {
      return Failure(PayloadSliceOutOfRange);
    }
    DataLengthFits(fileData);
    var dataLength := CountExcludingPadding(fileData[HeaderSize..], BlockAlign);
    header.AppendInt32(dataLength);
    assert header.bytes == Header(|fileData| - 8, dataLength);
    return Success(header.bytes);
  }

  /** The built header describes the file: its `RIFF` size plus 8 is the file
      length, its format is 24-bit mono PCM, and its `data` size is a whole
      number of samples covering every non-zero payload byte, at most 2 bytes
      past the end of the file. */
  lemma HeaderForDescribesFile(fileData: seq<Byte>)
    requires HeaderSize <= |fileData| <= Int32Max
    ensures HeaderFor(fileData).Success?
    ensures var fields := ParseHeader(HeaderFor(fileData).value);
      && fields.Some?
      && fields.value.riffSize + 8 == |fileData|
      && fields.value.format == Pcm24Mono
      && fields.value.dataSize == CountExcludingPadding(fileData[HeaderSize..], BlockAlign)
      && fields.value.dataSize % 3 == 0
      && HeaderSize + fields.value.dataSize <= |fileData| + 2
      && (forall i :: HeaderSize + fields.value.dataSize <= i < |fileData| ==> fileData[i] == 0)
  {
    var payload := fileData[HeaderSize..];
    var dataLength := CountExcludingPadding(payload, BlockAlign);
    assert HeaderFor(fileData) == Success(Header(|fileData| - 8, dataLength));
    ParseHeaderOfHeader(|fileData| - 8, dataLength);
    UnpaddedBoundary(payload);
    forall i | HeaderSize + dataLength <= i < |fileData|
      ensures fileData[i] == 0
    {
      assert fileData[i] == payload[i - HeaderSize];
    }
  }
}

/** The 18-byte detailed timing descriptor (section 3.10.2 of the VESA
    Enhanced EDID Standard, Release A, Revision 2). Most fields are split
    between a low byte and a nibble or a two-bit group of a shared byte; the
    decoder joins them with shifts and masks. */
module TimingDecoder {
  import opened Nom

  /** Rust's u32, used only for the pixel clock. */
  type u32 = x: int | 0 <= x < 0x1_0000_0000

  datatype DetailedTiming = DetailedTiming(
    pixelClock: u32,                  // kHz
    horizontalActivePixels: bv16,
    horizontalBlankingPixels: bv16,
    verticalActiveLines: bv16,
    verticalBlankingLines: bv16,
    horizontalFrontPorch: bv16,
    horizontalSyncWidth: bv16,
    verticalFrontPorch: bv16,
    verticalSyncWidth: bv16,
    horizontalSize: bv16,             // mm
    verticalSize: bv16,               // mm
    horizontalBorderPixels: byte,     // on each side
    verticalBorderPixels: byte,       // on each side
    features: byte)

  const TimingLength: nat := 18

  /** nom's `tuple` of one `le_u16` and sixteen `le_u8` reads: it fails with
      ErrorKind::Eof exactly when fewer than 18 bytes are left, so it is taken
      here as one 18-byte block whose fields sit at fixed offsets. */
  function ParseDetailedTiming(input: seq<byte>): (r: Parsed<DetailedTiming>)
    ensures r.Ok? <==> TimingLength <= |input|
    ensures r.Err? ==> r.error == UnexpectedEnd
    ensures r.Ok? ==> r.rest == input[TimingLength..] && r.value == DecodeDetailedTiming(input[..TimingLength])
  {
    var (block, rest) :- Take(TimingLength, input);
    Ok(DecodeDetailedTiming(block), rest)
  }

  /** The fields of one 18-byte block: each lands where the layout puts it,
      and each stays within the width its bits allow. */
  function DecodeDetailedTiming(b: seq<byte>): (t: DetailedTiming)
    requires |b| == TimingLength
    ensures LaidOutAs(t, b)
    ensures Representable(t)
  {
    var pixelClock10kHz := LittleEndian16(b[0], b[1]);
    var horizontalActiveLo := b[2];
    var horizontalBlankingLo := b[3];
    var horizontalPxHi := b[4];
    var verticalActiveLo := b[5];
    var verticalBlankingLo := b[6];
    var verticalPxHi := b[7];
    var horizontalFrontPorchLo := b[8];
    var horizontalSyncWidthLo := b[9];
    var verticalLo := b[10];
    var porchSyncHi := b[11];
    var horizontalSizeLo := b[12];
    var verticalSizeLo := b[13];
    var sizeHi := b[14];
    var horizontalBorder := b[15];
    var verticalBorder := b[16];
    var features := b[17];
    ClockRange(pixelClock10kHz);
    DetailedTiming(
      pixelClock10kHz as int * 10,
      Join(horizontalActiveLo, horizontalPxHi >> 4),
      Join(horizontalBlankingLo, horizontalPxHi & 0xF),
      Join(verticalActiveLo, verticalPxHi >> 4),
      Join(verticalBlankingLo, verticalPxHi & 0xF),
      Join(horizontalFrontPorchLo, porchSyncHi >> 6),
      Join(horizontalSyncWidthLo, (porchSyncHi >> 4) & 0x3),
      Join(verticalLo >> 4, (porchSyncHi >> 2) & 0x3),
      Join(verticalLo & 0xF, porchSyncHi & 0x3),
      Join(horizontalSizeLo, sizeHi >> 4),
      Join(verticalSizeLo, sizeHi & 0xF),
      horizontalBorder,
      verticalBorder,
      features)
  }

  /** The shape of every split field: `(lo as u16) | ((hi as u16) << 8)`. */
  function Join(lo: byte, hi: byte): (v: bv16)
    ensures JoinedFrom(v, lo, hi)
    ensures hi < 0x10 ==> v < 0x1000
    ensures hi < 0x4 ==> v < 0x400
    ensures lo < 0x10 && hi < 0x4 ==> v & 0xFCF0 == 0
  {
    (lo as bv16) | ((hi as bv16) << 8)
  }

  // ---------------------------------------------------------------------------
  // Where each field's bits come from

  /** `v` has `lo` as bits 7-0 and `hi` as bits 15-8. */
  predicate JoinedFrom(v: bv16, lo: byte, hi: byte)
  {
    v & 0xFF == lo as bv16 && v >> 8 == hi as bv16
  }

  /** The bit layout of the block, field by field, as the decoder reads it.
      The two vertical porch fields take their low nibble from byte 10 and
      their two extension bits from byte 11 into bits 9-8, leaving bits 7-4
      clear. */
  predicate LaidOutAs(t: DetailedTiming, b: seq<byte>)
    requires |b| >= TimingLength
  {
    && t.pixelClock == LittleEndian16(b[0], b[1]) as int * 10
    && JoinedFrom(t.horizontalActivePixels, b[2], b[4] >> 4)
    && JoinedFrom(t.horizontalBlankingPixels, b[3], b[4] & 0xF)
    && JoinedFrom(t.verticalActiveLines, b[5], b[7] >> 4)
    && JoinedFrom(t.verticalBlankingLines, b[6], b[7] & 0xF)
    && JoinedFrom(t.horizontalFrontPorch, b[8], b[11] >> 6)
    && JoinedFrom(t.horizontalSyncWidth, b[9], (b[11] >> 4) & 0x3)
    && JoinedFrom(t.verticalFrontPorch, b[10] >> 4, (b[11] >> 2) & 0x3)
    && JoinedFrom(t.verticalSyncWidth, b[10] & 0xF, b[11] & 0x3)
    && JoinedFrom(t.horizontalSize, b[12], b[14] >> 4)
    && JoinedFrom(t.verticalSize, b[13], b[14] & 0xF)
    && t.horizontalBorderPixels == b[15]
    && t.verticalBorderPixels == b[16]
    && t.features == b[17]
  }

  /** The values the decoder can produce: a pixel clock that is a multiple
      of 10 kHz up to 655350 kHz, 12-bit active, blanking and size fields,
      10-bit horizontal porch and sync fields, and vertical porch and sync
      fields with bits 0-3 and 8-9 only. */
  predicate Representable(t: DetailedTiming)
  {
    && t.pixelClock % 10 == 0 && t.pixelClock <= 655350
    && t.horizontalActivePixels < 0x1000 && t.horizontalBlankingPixels < 0x1000
    && t.verticalActiveLines < 0x1000 && t.verticalBlankingLines < 0x1000
    && t.horizontalFrontPorch < 0x400 && t.horizontalSyncWidth < 0x400
    && t.verticalFrontPorch & 0xFCF0 == 0 && t.verticalSyncWidth & 0xFCF0 == 0
    && t.horizontalSize < 0x1000 && t.verticalSize < 0x1000
  }

  // ---------------------------------------------------------------------------
  // The inverse: writing a timing record back into 18 bytes

  function Low(v: bv16): byte
  {
    (v & 0xFF) as byte
  }

  function High(v: bv16): byte
  {
    (v >> 8) as byte
  }

  function EncodeDetailedTiming(t: DetailedTiming): (b: seq<byte>)
    requires Representable(t)
    ensures |b| == TimingLength
  {
    var raw := t.pixelClock / 10;
    [ByteOf(raw % 256), ByteOf(raw / 256),
     Low(t.horizontalActivePixels), Low(t.horizontalBlankingPixels),
     (High(t.horizontalActivePixels) << 4) | High(t.horizontalBlankingPixels),
     Low(t.verticalActiveLines), Low(t.verticalBlankingLines),
     (High(t.verticalActiveLines) << 4) | High(t.verticalBlankingLines),
     Low(t.horizontalFrontPorch), Low(t.horizontalSyncWidth),
     (Low(t.verticalFrontPorch) << 4) | Low(t.verticalSyncWidth),
     (High(t.horizontalFrontPorch) << 6) | (High(t.horizontalSyncWidth) << 4) |
       (High(t.verticalFrontPorch) << 2) | High(t.verticalSyncWidth),
     Low(t.horizontalSize), Low(t.verticalSize),
     (High(t.horizontalSize) << 4) | High(t.verticalSize),
     t.horizontalBorderPixels, t.verticalBorderPixels, t.features]
  }

  /** Every representable record is decoded back from its encoding. */
  lemma TimingEncodeDecode(t: DetailedTiming)
    requires Representable(t)
    ensures ParseDetailedTiming(EncodeDetailedTiming(t)) == Ok(t, [])
  {
    var b := EncodeDetailedTiming(t);
    EncodeDecodeClock(t);
    EncodeDecodeActiveBlanking(t);
    EncodeDecodePorchSync(t);
    EncodeDecodeSize(t);
    assert b[..TimingLength] == b;
  }

  lemma EncodeDecodeClock(t: DetailedTiming)
    requires Representable(t)
    ensures DecodeDetailedTiming(EncodeDetailedTiming(t)).pixelClock == t.pixelClock
  {
    PixelClockFromBytes(t.pixelClock);
  }

  lemma EncodeDecodeActiveBlanking(t: DetailedTiming)
    requires Representable(t)
    ensures var d := DecodeDetailedTiming(EncodeDetailedTiming(t));
      && d.horizontalActivePixels == t.horizontalActivePixels
      && d.horizontalBlankingPixels == t.horizontalBlankingPixels
      && d.verticalActiveLines == t.verticalActiveLines
      && d.verticalBlankingLines == t.verticalBlankingLines
  {
    SharedNibbles(t.horizontalActivePixels, t.horizontalBlankingPixels);
    SharedNibbles(t.verticalActiveLines, t.verticalBlankingLines);
    JoinLowHigh(t.horizontalActivePixels);
    JoinLowHigh(t.horizontalBlankingPixels);
    JoinLowHigh(t.verticalActiveLines);
    JoinLowHigh(t.verticalBlankingLines);
  }

  lemma EncodeDecodePorchSync(t: DetailedTiming)
    requires Representable(t)
    ensures var d := DecodeDetailedTiming(EncodeDetailedTiming(t));
      && d.horizontalFrontPorch == t.horizontalFrontPorch
      && d.horizontalSyncWidth == t.horizontalSyncWidth
      && d.verticalFrontPorch == t.verticalFrontPorch
      && d.verticalSyncWidth == t.verticalSyncWidth
  {
    PorchBits(t.horizontalFrontPorch, t.horizontalSyncWidth, t.verticalFrontPorch, t.verticalSyncWidth);
    JoinLowHigh(t.horizontalFrontPorch);
    JoinLowHigh(t.horizontalSyncWidth);
    JoinLowHigh(t.verticalFrontPorch);
    JoinLowHigh(t.verticalSyncWidth);
  }

  lemma EncodeDecodeSize(t: DetailedTiming)
    requires Representable(t)
    ensures var d := DecodeDetailedTiming(EncodeDetailedTiming(t));
      d.horizontalSize == t.horizontalSize && d.verticalSize == t.verticalSize
  {
    SharedNibbles(t.horizontalSize, t.verticalSize);
    JoinLowHigh(t.horizontalSize);
    JoinLowHigh(t.verticalSize);
  }

  /** Every 18-byte block is encoded back from its decoding, so no two
      blocks decode to the same record. */
  lemma TimingDecodeEncode(input: seq<byte>)
    requires TimingLength <= |input|
    ensures EncodeDetailedTiming(ParseDetailedTiming(input).value) == input[..TimingLength]
  {
    DecodeEncodeBlock(input[..TimingLength]);
  }

  lemma DecodeEncodeBlock(b: seq<byte>)
    requires |b| == TimingLength
    ensures EncodeDetailedTiming(DecodeDetailedTiming(b)) == b
  {
    var e := EncodeDetailedTiming(DecodeDetailedTiming(b));
    DecodeEncodeClock(b);
    DecodeEncodeHorizontal(b);
    DecodeEncodeVertical(b);
    DecodeEncodePorchSync(b);
    DecodeEncodeSize(b);
    SameBlock(e, b);
  }

  /** Two blocks that agree byte by byte are equal. */
  lemma SameBlock(e: seq<byte>, b: seq<byte>)
    requires |e| == TimingLength && |b| == TimingLength
    requires e[0] == b[0] && e[1] == b[1] && e[2] == b[2] && e[3] == b[3] && e[4] == b[4] && e[5] == b[5]
    requires e[6] == b[6] && e[7] == b[7] && e[8] == b[8] && e[9] == b[9] && e[10] == b[10] && e[11] == b[11]
    requires e[12] == b[12] && e[13] == b[13] && e[14] == b[14] && e[15] == b[15] && e[16] == b[16] && e[17] == b[17]
    ensures e == b
  {
    assert forall i :: 0 <= i < TimingLength ==> e[i] == b[i];
  }

  lemma DecodeEncodeHorizontal(b: seq<byte>)
    requires |b| == TimingLength
    ensures var e := EncodeDetailedTiming(DecodeDetailedTiming(b)); e[2] == b[2] && e[3] == b[3] && e[4] == b[4]
  {
    NibblePairRoundTrip(b[2], b[3], b[4]);
  }

  lemma DecodeEncodeVertical(b: seq<byte>)
    requires |b| == TimingLength
    ensures var e := EncodeDetailedTiming(DecodeDetailedTiming(b)); e[5] == b[5] && e[6] == b[6] && e[7] == b[7]
  {
    NibblePairRoundTrip(b[5], b[6], b[7]);
  }

  lemma DecodeEncodePorchSync(b: seq<byte>)
    requires |b| == TimingLength
    ensures var e := EncodeDetailedTiming(DecodeDetailedTiming(b));
      e[8] == b[8] && e[9] == b[9] && e[10] == b[10] && e[11] == b[11]
  {
    PorchRoundTrip(b[8], b[9], b[10], b[11]);
  }

  lemma DecodeEncodeSize(b: seq<byte>)
    requires |b| == TimingLength
    ensures var e := EncodeDetailedTiming(DecodeDetailedTiming(b));
      e[12] == b[12] && e[13] == b[13] && e[14] == b[14] && e[15] == b[15] && e[16] == b[16] && e[17] == b[17]
  {
    NibblePairRoundTrip(b[12], b[13], b[14]);
  }

  /** Two fields sharing a byte of high nibbles are written back to their
      three bytes. */
  lemma NibblePairRoundTrip(lo0: byte, lo1: byte, hi: byte)
    ensures Low(Join(lo0, hi >> 4)) == lo0 && Low(Join(lo1, hi & 0xF)) == lo1
    ensures (High(Join(lo0, hi >> 4)) << 4) | High(Join(lo1, hi & 0xF)) == hi
  {
    NibbleSplit(hi);
    JoinParts(lo0, hi >> 4);
    JoinParts(lo1, hi & 0xF);
  }

  /** The four porch and sync fields are written back to bytes 8-11. */
  lemma PorchRoundTrip(b8: byte, b9: byte, b10: byte, b11: byte)
    ensures Low(Join(b8, b11 >> 6)) == b8 && Low(Join(b9, (b11 >> 4) & 0x3)) == b9
    ensures (Low(Join(b10 >> 4, (b11 >> 2) & 0x3)) << 4) | Low(Join(b10 & 0xF, b11 & 0x3)) == b10
    ensures (High(Join(b8, b11 >> 6)) << 6) | (High(Join(b9, (b11 >> 4) & 0x3)) << 4) |
      (High(Join(b10 >> 4, (b11 >> 2) & 0x3)) << 2) | High(Join(b10 & 0xF, b11 & 0x3)) == b11
  {
    NibbleSplit(b10);
    PairSplit(b11);
    JoinParts(b8, b11 >> 6);
    JoinParts(b9, (b11 >> 4) & 0x3);
    JoinParts(b10 >> 4, (b11 >> 2) & 0x3);
    JoinParts(b10 & 0xF, b11 & 0x3);
  }

  lemma JoinLowHigh(v: bv16)
    ensures Join(Low(v), High(v)) == v
  {
  }

  lemma JoinParts(lo: byte, hi: byte)
    ensures Low(Join(lo, hi)) == lo && High(Join(lo, hi)) == hi
  {
  }

  /** A clock in units of 10 kHz, in kHz. */
  lemma ClockRange(x: bv16)
    ensures (x as int * 10) % 10 == 0 && x as int * 10 <= 655350
  {
  }

  lemma PixelClockFromBytes(pc: u32)
    requires pc % 10 == 0 && pc <= 655350
    ensures var raw := pc / 10;
      LittleEndian16(ByteOf(raw % 256), ByteOf(raw / 256)) as int * 10 == pc
  {
    var raw := pc / 10;
    LittleEndian16Value(ByteOf(raw % 256), ByteOf(raw / 256));
  }

  lemma DecodeEncodeClock(b: seq<byte>)
    requires |b| == TimingLength
    ensures var e := EncodeDetailedTiming(DecodeDetailedTiming(b)); e[0] == b[0] && e[1] == b[1]
  {
    ClockBytesFromPixelClock(b[0], b[1]);
  }

  lemma ClockBytesFromPixelClock(b0: byte, b1: byte)
    ensures var raw := LittleEndian16(b0, b1) as int * 10 / 10;
      ByteOf(raw % 256) == b0 && ByteOf(raw / 256) == b1
  {
    var n := LittleEndian16(b0, b1) as int;
    LittleEndian16Value(b0, b1);
    DigitsOf(n, b0 as int, b1 as int);
    var lo, hi := ByteOf(n % 256), ByteOf(n / 256);
    ByteInjective(lo, b0);
    ByteInjective(hi, b1);
  }

  lemma DigitsOf(n: int, lo: int, hi: int)
    requires n == lo + 256 * hi && 0 <= lo < 256 && 0 <= hi
    ensures n * 10 / 10 == n && n % 256 == lo && n / 256 == hi
  {
  }

  lemma SharedNibbles(a: bv16, c: bv16)
    requires a < 0x1000 && c < 0x1000
    ensures var x := (High(a) << 4) | High(c); x >> 4 == High(a) && x & 0xF == High(c)
  {
  }

  lemma PorchBits(hfp: bv16, hsw: bv16, vfp: bv16, vsw: bv16)
    requires hfp < 0x400 && hsw < 0x400 && vfp & 0xFCF0 == 0 && vsw & 0xFCF0 == 0
    ensures var x := (Low(vfp) << 4) | Low(vsw); x >> 4 == Low(vfp) && x & 0xF == Low(vsw)
    ensures var x := (High(hfp) << 6) | (High(hsw) << 4) | (High(vfp) << 2) | High(vsw);
      x >> 6 == High(hfp) && (x >> 4) & 0x3 == High(hsw) && (x >> 2) & 0x3 == High(vfp) && x & 0x3 == High(vsw)
  {
  }

  lemma NibbleSplit(x: byte)
    ensures ((x >> 4) << 4) | (x & 0xF) == x
  {
  }

  lemma PairSplit(x: byte)
    ensures ((x >> 6) << 6) | (((x >> 4) & 0x3) << 4) | (((x >> 2) & 0x3) << 2) | (x & 0x3) == x
  {
  }

  // ---------------------------------------------------------------------------
  // The vertical porch extension bits

  /** Section 3.10.2 of the standard: the two extension bits of the vertical
      front porch and sync width are bits 5-4 of a six-bit value. */
  function StandardVerticalFrontPorch(b: seq<byte>): (v: bv16)
    requires TimingLength <= |b|
    ensures v < 64
  {
    ((b[10] >> 4) as bv16) | ((((b[11] >> 2) & 0x3) as bv16) << 4)
  }

  function StandardVerticalSyncWidth(b: seq<byte>): (v: bv16)
    requires TimingLength <= |b|
    ensures v < 64
  {
    ((b[10] & 0xF) as bv16) | (((b[11] & 0x3) as bv16) << 4)
  }

  /** The decoder shifts the two extension bits by 8 instead of 4: it agrees
      with the standard exactly when those bits are zero, and otherwise
      yields a value above the standard's maximum of 63 (up to 783). */
  lemma VerticalExtensionShiftedByEight(input: seq<byte>)
    requires TimingLength <= |input|
    ensures var t := ParseDetailedTiming(input).value;
      && (t.verticalFrontPorch == StandardVerticalFrontPorch(input) <==> (input[11] >> 2) & 0x3 == 0)
      && (t.verticalSyncWidth == StandardVerticalSyncWidth(input) <==> input[11] & 0x3 == 0)
      && ((input[11] >> 2) & 0x3 != 0 ==> 256 <= t.verticalFrontPorch <= 783)
      && (input[11] & 0x3 != 0 ==> 256 <= t.verticalSyncWidth <= 783)
  {
  }

  /** The 1680x1050 timing of a 22-inch monitor. */
  lemma TimingExample()
    ensures ParseDetailedTiming(
      [0x21, 0x39, 0x90, 0x30, 0x62, 0x1A, 0x27, 0x40, 0x68,
       0xB0, 0x36, 0x00, 0xDA, 0x28, 0x11, 0x00, 0x00, 0x1C])
      == Ok(DetailedTiming(146250, 1680, 560, 1050, 39, 104, 176, 3, 6, 474, 296, 0, 0, 28), [])
  {
  }
}

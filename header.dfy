/** The 20-byte identity block at the start of the base EDID block: the fixed
    magic, the packed vendor letters, product and serial numbers, and the
    manufacture date and EDID version bytes. */
module HeaderDecoder {
  import opened Nom

  datatype Header = Header(
    vendor: seq<char>,
    product: bv16,
    serial: bv32,
    week: byte,
    year: byte,      // years since 1990
    version: byte,
    revision: byte)

  const Magic: seq<byte> := [0x00, 0xFF, 0xFF, 0xFF, 0xFF, 0xFF, 0xFF, 0x00]

  const HeaderLength: nat := 20

  predicate StartsWithMagic(input: seq<byte>)
  {
    |Magic| <= |input| && input[..|Magic|] == Magic
  }

  // ---------------------------------------------------------------------------
  // Vendor letters

  /** Rust's `as u8` on a u16: keep the low eight bits. */
  function TruncateToU8(x: bv16): byte
  {
    (x & 0xFF) as byte
  }

  /** The five-bit field of `v` that holds letter `i`: bits 14-10, 9-5, 4-0. */
  function VendorField(v: bv16, i: nat): (f: byte)
    requires i < 3
    ensures f < 32
  {
    match i
    case 0 => TruncateToU8(v >> 10) & 0x1F
    case 1 => TruncateToU8(v >> 5) & 0x1F
    case _ => TruncateToU8(v) & 0x1F
  }

  /** `b'A' - 1`: field value 1 is 'A'. */
  const LetterBase: byte := 0x41 - 1

  /** One five-bit field as a character. */
  function VendorLetter(field: byte): (c: char)
    requires field < 32
    ensures IsVendorChar(c)
    ensures c as int == field as int + 64
  {
    (field + LetterBase) as char
  }

  /** Three letters, five bits each, with code `field + 'A' - 1`; bit 15 is
      not looked at. Field 0 and fields 27-31 give '@' and '['..'_', which are
      not letters: nothing rejects them. */
  function ParseVendor(v: bv16): (r: seq<char>)
    ensures |r| == 3
    ensures forall i :: 0 <= i < 3 ==> IsVendorChar(r[i])
    ensures forall i :: 0 <= i < 3 ==> r[i] as int == VendorField(v, i) as int + 64
  {
    [VendorLetter(VendorField(v, 0)), VendorLetter(VendorField(v, 1)), VendorLetter(VendorField(v, 2))]
  }

  /** The characters a five-bit field can decode to: '@', 'A'..'Z', '['..'_'. */
  predicate IsVendorChar(c: char)
  {
    '@' <= c <= '_'
  }

  /** The five-bit code of a vendor character. */
  function VendorCode(c: char): (f: byte)
    requires IsVendorChar(c)
    ensures f < 32 && f as int + 64 == c as int
  {
    ByteOf(c as int - 64)
  }

  /** Three five-bit fields packed into bits 14-10, 9-5 and 4-0. */
  function PackFields(f0: byte, f1: byte, f2: byte): bv16
  {
    ((f0 as bv16) << 10) | ((f1 as bv16) << 5) | (f2 as bv16)
  }

  lemma PackFieldsRoundTrip(v: bv16, f0: byte, f1: byte, f2: byte)
    ensures PackFields(VendorField(v, 0), VendorField(v, 1), VendorField(v, 2)) == v & 0x7FFF
    ensures f0 < 32 && f1 < 32 && f2 < 32 ==>
      var w := PackFields(f0, f1, f2);
      VendorField(w, 0) == f0 && VendorField(w, 1) == f1 && VendorField(w, 2) == f2
  {
  }

  lemma VendorLetterCodeInverse(c: char, f: byte)
    ensures IsVendorChar(c) ==> VendorLetter(VendorCode(c)) == c
    ensures f < 32 ==> VendorCode(VendorLetter(f)) == f
  {
    if f < 32 {
      ByteInjective(VendorCode(VendorLetter(f)), f);
    }
  }

  /** The inverse of ParseVendor: pack three characters into bits 14-0. */
  function EncodeVendor(letters: seq<char>): bv16
    requires |letters| == 3 && forall i :: 0 <= i < 3 ==> IsVendorChar(letters[i])
  {
    PackFields(VendorCode(letters[0]), VendorCode(letters[1]), VendorCode(letters[2]))
  }

  lemma VendorRoundTrip(letters: seq<char>)
    requires |letters| == 3 && forall i :: 0 <= i < 3 ==> IsVendorChar(letters[i])
    ensures ParseVendor(EncodeVendor(letters)) == letters
  {
    var f0, f1, f2 := VendorCode(letters[0]), VendorCode(letters[1]), VendorCode(letters[2]);
    var v := PackFields(f0, f1, f2);
    PackFieldsRoundTrip(v, f0, f1, f2);
    VendorLetterCodeInverse(letters[0], 0);
    VendorLetterCodeInverse(letters[1], 0);
    VendorLetterCodeInverse(letters[2], 0);
  }

  /** Decoding then encoding gives back everything but bit 15. */
  lemma VendorIgnoresTopBit(v: bv16)
    ensures EncodeVendor(ParseVendor(v)) == v & 0x7FFF
  {
    PackFieldsRoundTrip(v, 0, 0, 0);
    VendorLetterCodeInverse('@', VendorField(v, 0));
    VendorLetterCodeInverse('@', VendorField(v, 1));
    VendorLetterCodeInverse('@', VendorField(v, 2));
  }

  /** The letters are all upper-case exactly when every field is in 1..26. */
  lemma VendorUppercaseIff(v: bv16)
    ensures (forall i :: 0 <= i < 3 ==> 'A' <= ParseVendor(v)[i] <= 'Z') <==>
            (forall i :: 0 <= i < 3 ==> 1 <= VendorField(v, i) <= 26)
  {
    var r := ParseVendor(v);
    forall i | 0 <= i < 3 ensures ('A' <= r[i] <= 'Z') <==> (1 <= VendorField(v, i) <= 26) {
      assert r[i] as int == VendorField(v, i) as int + 64;
    }
  }

  /** Every packed value whose fields are not all in 1..26 decodes to a
      non-letter, '@' for field 0 among them. */
  lemma VendorAdmitsNonLetters()
    ensures ParseVendor(0x0000) == ['@', '@', '@']
    ensures ParseVendor(0x7FFF) == ['_', '_', '_']
    ensures ParseVendor(0x6F7B) == ['[', '[', '[']
  {
  }

  lemma VendorSamsung()
    ensures ParseVendor(0x4C2D) == ['S', 'A', 'M']
  {
  }

  // ---------------------------------------------------------------------------
  // Header

  /** nom's `tuple` of the magic `tag` and the eight number reads: the reads
      fail with ErrorKind::Eof exactly when fewer than 12 bytes follow the
      magic, so they are taken here as one 12-byte block. */
  function ParseHeader(input: seq<byte>): (r: Parsed<Header>)
    ensures r.Ok? <==> StartsWithMagic(input) && HeaderLength <= |input|
    ensures r.Err? ==> r.error == if StartsWithMagic(input) then UnexpectedEnd else MagicMismatch
    ensures r.Ok? ==> r.rest == input[HeaderLength..]
    ensures r.Ok? ==>
      && r.value.vendor == ParseVendor(LittleEndian16(input[9], input[8]))
      && r.value.product == LittleEndian16(input[10], input[11])
      && r.value.serial == LittleEndian32(input[12], input[13], input[14], input[15])
      && r.value.week == input[16]
      && r.value.year == input[17]
      && r.value.version == input[18]
      && r.value.revision == input[19]
  {
    var (_, s0) :- Tag(Magic, input);
    var (b, rest) :- Take(HeaderLength - |Magic|, s0);
    var vendor := LittleEndian16(b[1], b[0]);        // be_u16
    var product := LittleEndian16(b[2], b[3]);       // le_u16
    var serial := LittleEndian32(b[4], b[5], b[6], b[7]);
    Ok(Header(ParseVendor(vendor), product, serial, b[8], b[9], b[10], b[11]), rest)
  }
}

/** The whole base block: header, basic display parameters, three skipped
    regions, four descriptor slots, then the extension-count and checksum
    bytes, which are consumed without being looked at. */
module EdidDecoder {
  import opened Nom
  import HeaderDecoder
  import DisplayDecoder
  import DescriptorDecoder

  datatype Edid = Edid(
    header: HeaderDecoder.Header,
    display: DisplayDecoder.Display,
    chromaticity: (),
    establishedTiming: (),
    standardTiming: (),
    descriptors: seq<DescriptorDecoder.Descriptor>)

  /** `parse_edid` either returns, with a value or an error, or panics: the
      descriptor stage's result is unwrapped, so its error is never returned. */
  datatype Outcome = Returned(result: Parsed<Edid>) | Panicked

  const DescriptorsOffset: nat := 54
  const DescriptorCount: nat := 4
  const EdidLength: nat := 128

  /** The first five stages of `parse_edid`, whose errors `?` hands back:
      header, display parameters, and the three skipped regions. */
  function ParseFixedPart(input: seq<byte>): (r: Parsed<(HeaderDecoder.Header, DisplayDecoder.Display)>)
    ensures r.Ok? <==> HeaderDecoder.StartsWithMagic(input) && DescriptorsOffset <= |input|
    ensures r.Err? ==> r.error == if HeaderDecoder.StartsWithMagic(input) then UnexpectedEnd else MagicMismatch
    ensures r.Ok? ==> r.rest == input[DescriptorsOffset..]
    ensures r.Ok? ==> r.value.0 == HeaderDecoder.ParseHeader(input).value
    ensures r.Ok? ==> r.value.1 == DisplayDecoder.ParseDisplay(input[HeaderDecoder.HeaderLength..]).value
  {
    var (header, s0) :- HeaderDecoder.ParseHeader(input);
    var (display, s1) :- DisplayDecoder.ParseDisplay(s0);
    var (_, s2) :- DisplayDecoder.ParseChromaticity(s1);
    var (_, s3) :- DisplayDecoder.ParseEstablishedTiming(s2);
    var (_, s4) :- DisplayDecoder.ParseStandardTiming(s3);
    Ok((header, display), s4)
  }

  /** The last two stages: the extension count and the checksum bytes. */
  function ParseTrailer(input: seq<byte>): (r: Parsed<()>)
    ensures r.Ok? <==> 2 <= |input|
    ensures r.Err? ==> r.error == UnexpectedEnd
    ensures r.Ok? ==> r.rest == input[2..]
  {
    var (_, s0) :- Take(1, input);   // extension count
    var (_, s1) :- Take(1, s0);      // checksum
    Ok((), s1)
  }

  /** `parse_edid` (and `parse`, which only forwards to it). */
  function ParseEdid(cp437: byte -> char, input: seq<byte>): (o: Outcome)
  {
    match ParseFixedPart(input)
    case Err(e) => Returned(Err(e))
    case Ok((header, display), s4) =>
      match Count(DescriptorDecoder.DescriptorParser(cp437), DescriptorCount)(s4)
      case Err(_) => Panicked
      case Ok(descriptors, s5) =>
        match ParseTrailer(s5)
        case Err(e) => Returned(Err(e))
        case Ok(_, s7) => Returned(Ok(Edid(header, display, (), (), (), descriptors), s7))
  }

  /** `count(p, n)` over a parser that takes one 18-byte slot: it needs
      `18 * n` bytes and parses slot `i` from offset `18 * i`. */
  lemma RepeatSlots<T>(p: Parser<T>, n: nat, input: seq<byte>)
    requires ConsumesExactly(p, DescriptorDecoder.DescriptorLength)
    ensures Repeat(p, n, input).Ok? <==> 18 * n <= |input|
    ensures Repeat(p, n, input).Ok? ==> Repeat(p, n, input).rest == input[18 * n..]
    ensures Repeat(p, n, input).Ok? ==>
      forall i :: 0 <= i < n ==> Repeat(p, n, input).value[i] == p(input[18 * i..]).value
  {
    RepeatSlotsLength(p, n, input);
    if 18 * n <= |input| {
      RepeatSlotsValues(p, n, input);
    }
  }

  lemma {:induction false} RepeatSlotsLength<T>(p: Parser<T>, n: nat, input: seq<byte>)
    requires ConsumesExactly(p, DescriptorDecoder.DescriptorLength)
    ensures Repeat(p, n, input).Ok? <==> 18 * n <= |input|
    ensures Repeat(p, n, input).Ok? ==> Repeat(p, n, input).rest == input[18 * n..]
  {
    if n > 0 && p(input).Ok? {
      DropDrop(input, 18, 0);
      RepeatSlotsLength(p, n - 1, input[18..]);
      if 18 * n <= |input| {
        DropDrop(input, 18, 18 * (n - 1));
      }
    }
  }

  lemma {:induction false} RepeatSlotsValues<T>(p: Parser<T>, n: nat, input: seq<byte>)
    requires ConsumesExactly(p, DescriptorDecoder.DescriptorLength)
    requires 18 * n <= |input|
    ensures Repeat(p, n, input).Ok?
    ensures forall i :: 0 <= i < n ==> Repeat(p, n, input).value[i] == p(input[18 * i..]).value
  {
    RepeatSlotsLength(p, n, input);
    if n > 0 {
      var rest := p(input).rest;
      assert rest == input[18..];
      RepeatSlotsValues(p, n - 1, rest);
      RepeatCons(p, n, input);
      ShiftedValues(p, input, Repeat(p, n - 1, rest).value, n);
    }
  }

  /** The value read at the head, followed by the values read at offsets
      `18 * i` of the input after the first slot, are the values read at
      offsets `18 * i` of the whole input. */
  lemma ShiftedValues<T>(p: Parser<T>, input: seq<byte>, tail: seq<T>, n: nat)
    requires ConsumesExactly(p, DescriptorDecoder.DescriptorLength)
    requires 0 < n && 18 * n <= |input| && |tail| == n - 1
    requires forall i :: 0 <= i < n - 1 ==> tail[i] == p(input[18..][18 * i..]).value
    ensures forall i :: 0 <= i < n ==> ([p(input).value] + tail)[i] == p(input[18 * i..]).value
  {
    var v := [p(input).value] + tail;
    forall i | 0 <= i < n ensures v[i] == p(input[18 * i..]).value {
      if i == 0 {
        assert input[18 * i..] == input;
      } else {
        DropDrop(input, 18, 18 * (i - 1));
        assert v[i] == tail[i - 1];
      }
    }
  }

  /** One step of `count`: the first value, then the values of the rest. */
  lemma RepeatCons<T>(p: Parser<T>, n: nat, input: seq<byte>)
    requires n > 0 && p(input).Ok? && Repeat(p, n - 1, p(input).rest).Ok?
    ensures Repeat(p, n, input).Ok?
    ensures Repeat(p, n, input).value == [p(input).value] + Repeat(p, n - 1, p(input).rest).value
  {
  }

  /** The four descriptor slots at offset 54: they need 72 bytes, else the
      stage fails. */
  lemma DescriptorSlots(cp437: byte -> char, s: seq<byte>)
    ensures var r := Count(DescriptorDecoder.DescriptorParser(cp437), DescriptorCount)(s);
      && (r.Ok? <==> 72 <= |s|)
      && (r.Ok? ==> (r.rest == s[72..] && |r.value| == DescriptorCount &&
            forall k :: 0 <= k < DescriptorCount ==>
              r.value[k] == DescriptorDecoder.ParseDescriptor(cp437, s[18 * k..]).value))
  {
    var p := DescriptorDecoder.DescriptorParser(cp437);
    DescriptorDecoder.DescriptorConsumesSlot(cp437);
    RepeatSlots(p, DescriptorCount, s);
  }

  /** How the outcome depends on the input: a wrong magic is a tag error; a
      right one with under 54 bytes an end-of-input error; 54 to 125 bytes
      panic in the descriptor stage; 126 or 127 bytes are an end-of-input
      error again; 128 or more parse, leaving everything after byte 128. */
  lemma EdidOutcome(cp437: byte -> char, input: seq<byte>)
    ensures var o := ParseEdid(cp437, input);
      && (!HeaderDecoder.StartsWithMagic(input) ==> o == Returned(Err(MagicMismatch)))
      && (HeaderDecoder.StartsWithMagic(input) && |input| < DescriptorsOffset ==>
            o == Returned(Err(UnexpectedEnd)))
      && (HeaderDecoder.StartsWithMagic(input) && DescriptorsOffset <= |input| < EdidLength - 2 ==>
            o == Panicked)
      && (HeaderDecoder.StartsWithMagic(input) && EdidLength - 2 <= |input| < EdidLength ==>
            o == Returned(Err(UnexpectedEnd)))
      && (HeaderDecoder.StartsWithMagic(input) && EdidLength <= |input| ==>
            o.Returned? && o.result.Ok? && o.result.rest == input[EdidLength..] &&
            |o.result.value.descriptors| == DescriptorCount)
  {
    if !HeaderDecoder.StartsWithMagic(input) || |input| < DescriptorsOffset {
      assert ParseFixedPart(input).Err?;
    } else if |input| < EdidLength {
      DescriptorStageOutcome(cp437, input);
    } else {
      EdidLayout(cp437, input);
    }
  }

  /** Between 54 and 127 bytes: the descriptor stage fails below 126 bytes,
      and the trailer fails on 126 or 127. */
  lemma DescriptorStageOutcome(cp437: byte -> char, input: seq<byte>)
    requires HeaderDecoder.StartsWithMagic(input) && DescriptorsOffset <= |input| < EdidLength
    ensures ParseEdid(cp437, input) == if |input| < EdidLength - 2 then Panicked else Returned(Err(UnexpectedEnd))
  {
    if |input| < EdidLength - 2 {
      DescriptorStagePanics(cp437, input);
    } else {
      TrailerStageFails(cp437, input);
    }
  }

  lemma DescriptorStagePanics(cp437: byte -> char, input: seq<byte>)
    requires HeaderDecoder.StartsWithMagic(input) && DescriptorsOffset <= |input| < EdidLength - 2
    ensures ParseEdid(cp437, input) == Panicked
  {
    DescriptorSlots(cp437, input[DescriptorsOffset..]);
  }

  lemma TrailerStageFails(cp437: byte -> char, input: seq<byte>)
    requires HeaderDecoder.StartsWithMagic(input) && EdidLength - 2 <= |input| < EdidLength
    ensures ParseEdid(cp437, input) == Returned(Err(UnexpectedEnd))
  {
    var s4 := input[DescriptorsOffset..];
    DescriptorSlots(cp437, s4);
    var c := Count(DescriptorDecoder.DescriptorParser(cp437), DescriptorCount)(s4);
    assert |c.rest| < 2;
    assert ParseTrailer(c.rest) == Err(UnexpectedEnd);
  }

  /** The block read field by field from its fixed offsets: the header from
      bytes 0-19, the display parameters from bytes 20-24, and descriptor `k`
      from the 18 bytes at `54 + 18 * k`. */
  ghost function LaidOut(cp437: byte -> char, input: seq<byte>): Edid
    requires HeaderDecoder.StartsWithMagic(input) && EdidLength <= |input|
  {
    Edid(
      HeaderDecoder.ParseHeader(input).value,
      DisplayDecoder.ParseDisplay(input[HeaderDecoder.HeaderLength..]).value,
      (), (), (),
      [Slot(cp437, input, 0), Slot(cp437, input, 1), Slot(cp437, input, 2), Slot(cp437, input, 3)])
  }

  /** Descriptor slot `k`, read from its 18 bytes at `54 + 18 * k`. */
  ghost function Slot(cp437: byte -> char, input: seq<byte>, k: nat): DescriptorDecoder.Descriptor
    requires EdidLength <= |input| && k < DescriptorCount
  {
    var at := DescriptorsOffset + 18 * k;
    DescriptorDecoder.SlotValue(cp437, input[at..at + 18])
  }

  /** A full block parses to its field-by-field reading. */
  lemma EdidLayout(cp437: byte -> char, input: seq<byte>)
    requires HeaderDecoder.StartsWithMagic(input) && EdidLength <= |input|
    ensures ParseEdid(cp437, input) == Returned(Ok(LaidOut(cp437, input), input[EdidLength..]))
  {
    var f := ParseFixedPart(input);
    assert f.rest == input[DescriptorsOffset..];
    SlotsLaidOut(cp437, input);
    var c := Count(DescriptorDecoder.DescriptorParser(cp437), DescriptorCount)(f.rest);
    assert c.rest == input[EdidLength - 2..];
    var t := ParseTrailer(c.rest);
    assert t.rest == input[EdidLength..];
  }

  /** The descriptor stage reads the four slots at their offsets. */
  lemma SlotsLaidOut(cp437: byte -> char, input: seq<byte>)
    requires EdidLength <= |input|
    ensures var c := Count(DescriptorDecoder.DescriptorParser(cp437), DescriptorCount)(input[DescriptorsOffset..]);
      && c.Ok? && c.rest == input[EdidLength - 2..]
      && c.value == [Slot(cp437, input, 0), Slot(cp437, input, 1), Slot(cp437, input, 2), Slot(cp437, input, 3)]
  {
    var s4 := input[DescriptorsOffset..];
    DescriptorSlots(cp437, s4);
    var c := Count(DescriptorDecoder.DescriptorParser(cp437), DescriptorCount)(s4);
    ListOfFour(c.value);
    SlotRead(cp437, input, 0);
    SlotRead(cp437, input, 1);
    SlotRead(cp437, input, 2);
    SlotRead(cp437, input, 3);
  }

  /** What the descriptor stage reads at slot `k` is that slot's reading. */
  lemma SlotRead(cp437: byte -> char, input: seq<byte>, k: nat)
    requires EdidLength <= |input| && k < DescriptorCount
    ensures DescriptorDecoder.ParseDescriptor(cp437, input[DescriptorsOffset..][18 * k..]).value == Slot(cp437, input, k)
  {
    var at := DescriptorsOffset + 18 * k;
    DropDrop(input, DescriptorsOffset, 18 * k);
    DescriptorDecoder.DescriptorLayout(cp437, input[at..]);
    DropTake(input, at, 18);
  }

  lemma ListOfFour<T>(v: seq<T>)
    requires |v| == 4
    ensures v == [v[0], v[1], v[2], v[3]]
  {
  }

  lemma DropDrop(s: seq<byte>, a: nat, b: nat)
    requires a + b <= |s|
    ensures s[a..][b..] == s[a + b..]
  {
  }

  lemma DropTake(s: seq<byte>, a: nat, n: nat)
    requires a + n <= |s|
    ensures s[a..][..n] == s[a..a + n]
  {
  }

  lemma SliceSlice(s: seq<byte>, lo: nat, hi: nat, a: nat, n: nat)
    requires lo <= hi <= |s| && a + n <= hi - lo
    ensures s[lo..hi][a..a + n] == s[lo + a..lo + a + n]
  {
    var u, w := s[lo..hi][a..a + n], s[lo + a..lo + a + n];
    forall i | 0 <= i < n ensures u[i] == w[i] {
      assert s[lo..hi][a + i] == s[lo + a + i];
    }
  }

  /** Only bytes 8-24 and 54-125 determine the parsed value: the
      chromaticity, established and standard timing regions, the extension
      count and the checksum are consumed and never looked at, so a wrong
      checksum is accepted. */
  lemma EdidIgnoresSkippedBytes(cp437: byte -> char, input: seq<byte>, other: seq<byte>)
    requires HeaderDecoder.StartsWithMagic(input) && EdidLength <= |input| && EdidLength <= |other|
    requires input[..25] == other[..25]
    requires input[DescriptorsOffset..EdidLength - 2] == other[DescriptorsOffset..EdidLength - 2]
    ensures ParseEdid(cp437, input).Returned? && ParseEdid(cp437, input).result.Ok?
    ensures ParseEdid(cp437, other).Returned? && ParseEdid(cp437, other).result.Ok?
    ensures ParseEdid(cp437, input).result.value == ParseEdid(cp437, other).result.value
  {
    PrefixParts(input, other);
    HeaderFromBytes(input, other);
    EdidLayout(cp437, input);
    EdidLayout(cp437, other);
    LaidOutFromBytes(cp437, input, other);
  }

  lemma LaidOutFromBytes(cp437: byte -> char, input: seq<byte>, other: seq<byte>)
    requires HeaderDecoder.StartsWithMagic(input) && EdidLength <= |input| && EdidLength <= |other|
    requires input[..25] == other[..25]
    requires input[DescriptorsOffset..EdidLength - 2] == other[DescriptorsOffset..EdidLength - 2]
    requires HeaderDecoder.StartsWithMagic(other)
    ensures LaidOut(cp437, input) == LaidOut(cp437, other)
  {
    PrefixParts(input, other);
    HeaderFromBytes(input, other);
    DisplayFromBytes(input, other);
    SlotsFromRegion(cp437, input, other);
  }

  /** Agreement on bytes 0-24 is agreement on the header and display bytes. */
  lemma PrefixParts(input: seq<byte>, other: seq<byte>)
    requires 25 <= |input| && 25 <= |other| && input[..25] == other[..25]
    ensures input[..20] == other[..20] && input[20..25] == other[20..25]
  {
    assert input[..20] == input[..25][..20] && other[..20] == other[..25][..20];
    assert input[20..25] == input[..25][20..] && other[20..25] == other[..25][20..];
  }

  /** Agreement on the descriptor region is agreement on every slot. */
  lemma SlotsFromRegion(cp437: byte -> char, input: seq<byte>, other: seq<byte>)
    requires EdidLength <= |input| && EdidLength <= |other|
    requires input[DescriptorsOffset..EdidLength - 2] == other[DescriptorsOffset..EdidLength - 2]
    ensures forall k :: 0 <= k < DescriptorCount ==> Slot(cp437, input, k) == Slot(cp437, other, k)
  {
    forall k | 0 <= k < DescriptorCount ensures Slot(cp437, input, k) == Slot(cp437, other, k) {
      SlotBytesAgree(input, other, k);
      SlotFromBytes(cp437, input, other, k);
    }
  }

  /** Two blocks that agree on the whole descriptor region agree on each slot. */
  lemma SlotBytesAgree(input: seq<byte>, other: seq<byte>, k: nat)
    requires EdidLength <= |input| && EdidLength <= |other| && k < DescriptorCount
    requires input[DescriptorsOffset..EdidLength - 2] == other[DescriptorsOffset..EdidLength - 2]
    ensures input[DescriptorsOffset + 18 * k..DescriptorsOffset + 18 * k + 18] ==
            other[DescriptorsOffset + 18 * k..DescriptorsOffset + 18 * k + 18]
  {
    SliceSlice(input, DescriptorsOffset, EdidLength - 2, 18 * k, 18);
    SliceSlice(other, DescriptorsOffset, EdidLength - 2, 18 * k, 18);
  }

  lemma SlotFromBytes(cp437: byte -> char, input: seq<byte>, other: seq<byte>, k: nat)
    requires EdidLength <= |input| && EdidLength <= |other| && k < DescriptorCount
    requires input[DescriptorsOffset + 18 * k..DescriptorsOffset + 18 * k + 18] ==
             other[DescriptorsOffset + 18 * k..DescriptorsOffset + 18 * k + 18]
    ensures Slot(cp437, input, k) == Slot(cp437, other, k)
  {
  }

  lemma HeaderFromBytes(input: seq<byte>, other: seq<byte>)
    requires HeaderDecoder.StartsWithMagic(input) && 20 <= |input| && 20 <= |other|
    requires input[..20] == other[..20]
    ensures HeaderDecoder.StartsWithMagic(other)
    ensures HeaderDecoder.ParseHeader(input).value == HeaderDecoder.ParseHeader(other).value
  {
    assert other[..8] == input[..20][..8];
    forall i | 8 <= i < 20 ensures input[i] == other[i] {
      assert input[..20][i] == other[..20][i];
    }
  }

  lemma DisplayFromBytes(input: seq<byte>, other: seq<byte>)
    requires 25 <= |input| && 25 <= |other|
    requires input[20..25] == other[20..25]
    ensures DisplayDecoder.ParseDisplay(input[HeaderDecoder.HeaderLength..]).value ==
            DisplayDecoder.ParseDisplay(other[HeaderDecoder.HeaderLength..]).value
  {
    forall i | HeaderDecoder.HeaderLength <= i < 25 ensures input[i] == other[i] {
      assert input[20..25][i - 20] == other[20..25][i - 20];
    }
  }
}

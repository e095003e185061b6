/** The four 18-byte descriptor slots. A slot whose first two bytes are zero
    is a monitor descriptor (three header bytes, a tag byte, a padding byte,
    13 payload bytes); any other slot is a detailed timing. */
module DescriptorDecoder {
  import opened Nom
  import TimingDecoder
  import TextDecoder

  datatype Descriptor =
    | DetailedTiming(timing: TimingDecoder.DetailedTiming)
    | SerialNumber(text: seq<char>)
    | UnspecifiedText(text: seq<char>)
    | RangeLimits
    | ProductName(text: seq<char>)
    | WhitePoint
    | StandardTiming
    | ColorManagement
    | TimingCodes
    | EstablishedTimings
    | Dummy
    | Unknown(data: seq<byte>)

  const DescriptorLength: nat := 18
  const PayloadLength: nat := 13

  /** The descriptor text parser over a fixed code page table. */
  function Text(cp437: byte -> char): Parser<seq<char>>
  {
    s => TextDecoder.ParseDescriptorText(cp437, s)
  }

  /** `take(13)`, whose bytes the untyped variants throw away. */
  function Payload(): Parser<seq<byte>>
  {
    s => Take(PayloadLength, s)
  }

  /** An alternative that skips the padding byte and reads the payload as
      text: `map(preceded(le_u8, parse_descriptor_text), wrap)`. */
  function TextAlternative(cp437: byte -> char, wrap: seq<char> -> Descriptor): Parser<Descriptor>
  {
    Map(Preceded(LeU8, Text(cp437)), wrap)
  }

  /** An alternative that skips the padding byte and discards the payload:
      `map(preceded(le_u8, take(13)), |_| d)`. */
  function SkipAlternative(d: Descriptor): Parser<Descriptor>
  {
    Map(Preceded(LeU8, Payload()), _ => d)
  }

  /** The last alternative, which keeps the payload bytes:
      `map(preceded(le_u8, count(le_u8, 13)), Unknown)`. */
  function UnknownAlternative(): Parser<Descriptor>
  {
    Map(Preceded(LeU8, Count(LeU8, PayloadLength)), data => Unknown(data))
  }

  /** The eleven alternatives, tried in this order. None looks at the tag
      byte, which has already been consumed. */
  function Alternatives(cp437: byte -> char): (bs: seq<Parser<Descriptor>>)
    ensures |bs| == 11
  {
    [ TextAlternative(cp437, t => SerialNumber(t)),
      TextAlternative(cp437, t => UnspecifiedText(t)),
      SkipAlternative(RangeLimits),
      TextAlternative(cp437, t => ProductName(t)),
      SkipAlternative(WhitePoint),
      SkipAlternative(StandardTiming),
      SkipAlternative(ColorManagement),
      SkipAlternative(TimingCodes),
      SkipAlternative(EstablishedTimings),
      SkipAlternative(Dummy),
      UnknownAlternative() ]
  }

  /** The monitor-descriptor stage after the three zero header bytes:
      `preceded(le_u8, alt(...))`, the tag byte being the one skipped. */
  function Monitor(cp437: byte -> char): Parser<Descriptor>
  {
    Preceded(LeU8, Alt(Alternatives(cp437)))
  }

  /** `parse_descriptor` */
  function ParseDescriptor(cp437: byte -> char, input: seq<byte>): (r: Parsed<Descriptor>)
    ensures r.Ok? <==> DescriptorLength <= |input|
    ensures r.Err? ==> r.error == UnexpectedEnd
    ensures r.Ok? ==> r.rest == input[DescriptorLength..]
  {
    PeekType(input);
    var (descriptorType, s0) :- Peek(LeU16)(input);
    if descriptorType == 0 then ParseMonitorDescriptor(cp437, s0)
    else ParseTimingDescriptor(s0)
  }

  /** The branch taken when the first two bytes are zero: the three header
      bytes, then the monitor stage. Whatever the tag, the result is the
      serial number text of the last 13 bytes. */
  function ParseMonitorDescriptor(cp437: byte -> char, input: seq<byte>): (r: Parsed<Descriptor>)
    ensures r.Ok? <==> DescriptorLength <= |input|
    ensures r.Err? ==> r.error == UnexpectedEnd
    ensures r.Ok? ==> (r.rest == input[DescriptorLength..] &&
      r.value == SerialNumber(TextDecoder.DecodeText(cp437, input[5..DescriptorLength])))
  {
    var (_, s1) :- Take(3, input);
    MonitorAfterHeader(cp437, input);
    Monitor(cp437)(s1)
  }

  lemma MonitorAfterHeader(cp437: byte -> char, input: seq<byte>)
    requires 3 <= |input|
    ensures var r := Monitor(cp437)(input[3..]);
      && (r.Ok? <==> DescriptorLength <= |input|)
      && (r.Err? ==> r.error == UnexpectedEnd)
      && (r.Ok? ==> (r.rest == input[DescriptorLength..] &&
            r.value == SerialNumber(TextDecoder.DecodeText(cp437, input[5..DescriptorLength]))))
  {
    if |input| < DescriptorLength {
      MonitorShort(cp437, input[3..]);
    } else {
      MonitorLongAfterHeader(cp437, input);
    }
  }

  lemma MonitorLongAfterHeader(cp437: byte -> char, input: seq<byte>)
    requires DescriptorLength <= |input|
    ensures Monitor(cp437)(input[3..]) ==
      Ok(SerialNumber(TextDecoder.DecodeText(cp437, input[5..DescriptorLength])), input[DescriptorLength..])
  {
    var s1 := input[3..];
    MonitorLong(cp437, s1);
    assert s1[2..2 + PayloadLength] == input[5..DescriptorLength];
    assert s1[2 + PayloadLength..] == input[DescriptorLength..];
  }

  /** The branch taken otherwise: the slot is a detailed timing. */
  function ParseTimingDescriptor(input: seq<byte>): (r: Parsed<Descriptor>)
    ensures r.Ok? <==> DescriptorLength <= |input|
    ensures r.Err? ==> r.error == UnexpectedEnd
    ensures r.Ok? ==> (r.rest == input[DescriptorLength..] &&
      r.value == DetailedTiming(TimingDecoder.DecodeDetailedTiming(input[..DescriptorLength])))
  {
    TimingBranch(input);
    Map(TimingDecoder.ParseDetailedTiming, t => DetailedTiming(t))(input)
  }

  lemma PeekType(input: seq<byte>)
    ensures var r := Peek(LeU16)(input);
      && (r.Ok? <==> 2 <= |input|)
      && (r.Err? ==> r.error == UnexpectedEnd)
      && (r.Ok? ==> r.value == LittleEndian16(input[0], input[1]) && r.rest == input)
  {
    var p: Parser<bv16> := LeU16;
    assert p(input) == LeU16(input);
  }

  lemma TimingBranch(s: seq<byte>)
    ensures var r := Map(TimingDecoder.ParseDetailedTiming, t => DetailedTiming(t))(s);
      && (r.Ok? <==> DescriptorLength <= |s|)
      && (r.Err? ==> r.error == UnexpectedEnd)
      && (r.Ok? ==> (r.rest == s[DescriptorLength..] &&
            r.value == DetailedTiming(TimingDecoder.DecodeDetailedTiming(s[..DescriptorLength]))))
  {
    var p: Parser<TimingDecoder.DetailedTiming> := TimingDecoder.ParseDetailedTiming;
    assert p(s) == TimingDecoder.ParseDetailedTiming(s);
  }

  /** The monitor stage succeeds exactly on 15 bytes (tag, padding, payload)
      and always yields the serial number text of the payload. */
  lemma MonitorFromFirst(cp437: byte -> char, s: seq<byte>)
    ensures var r := Monitor(cp437)(s);
      && (r.Ok? <==> 2 + PayloadLength <= |s|)
      && (r.Err? ==> r.error == UnexpectedEnd)
      && (r.Ok? ==> (r.rest == s[2 + PayloadLength..] &&
            r.value == SerialNumber(TextDecoder.DecodeText(cp437, s[2..2 + PayloadLength]))))
  {
    if |s| < 2 + PayloadLength {
      MonitorShort(cp437, s);
    } else {
      MonitorLong(cp437, s);
    }
  }

  lemma MonitorShort(cp437: byte -> char, s: seq<byte>)
    requires |s| < 2 + PayloadLength
    ensures Monitor(cp437)(s) == Err(UnexpectedEnd)
  {
    MonitorSkipsTag(cp437, s);
    if 1 <= |s| {
      AlternativesFromFirst(cp437, s[1..]);
    }
  }

  lemma MonitorLong(cp437: byte -> char, s: seq<byte>)
    requires 2 + PayloadLength <= |s|
    ensures Monitor(cp437)(s) ==
      Ok(SerialNumber(TextDecoder.DecodeText(cp437, s[2..2 + PayloadLength])), s[2 + PayloadLength..])
  {
    MonitorSkipsTag(cp437, s);
    var t := s[1..];
    AlternativesFromFirst(cp437, t);
    SerialNumberBranch(cp437, t);
    TagSlices(s);
  }

  /** The payload and the rest, seen past the tag and padding bytes. */
  lemma TagSlices(s: seq<byte>)
    requires 2 + PayloadLength <= |s|
    ensures s[1..][1..][..PayloadLength] == s[2..2 + PayloadLength]
    ensures s[1..][1 + PayloadLength..] == s[2 + PayloadLength..]
  {
  }

  /** The monitor stage drops the tag byte and hands the rest to `alt`. */
  lemma MonitorSkipsTag(cp437: byte -> char, s: seq<byte>)
    ensures Monitor(cp437)(s) ==
      if |s| < 1 then Err(UnexpectedEnd) else Alt(Alternatives(cp437))(s[1..])
  {
    var readTag: Parser<byte> := LeU8;
    assert readTag(s) == LeU8(s);
  }

  /** Every alternative needs the padding byte and 13 payload bytes, so the
      first one decides: it fails only when they all do. */
  lemma AlternativesFromFirst(cp437: byte -> char, t: seq<byte>)
    ensures var r := Alt(Alternatives(cp437))(t);
      && (r.Ok? <==> 1 + PayloadLength <= |t|)
      && (r.Err? ==> r.error == UnexpectedEnd)
      && (r.Ok? ==> r == Alternatives(cp437)[0](t))
  {
    var bs := Alternatives(cp437);
    assert Alt(bs)(t) == FirstSuccess(bs, t);
    if |t| < 1 + PayloadLength {
      AlternativesShort(cp437, t);
    } else {
      SerialNumberBranch(cp437, t);
    }
  }

  /** With fewer than 14 bytes, every alternative fails. */
  lemma AlternativesShort(cp437: byte -> char, t: seq<byte>)
    requires |t| < 1 + PayloadLength
    ensures forall i :: 0 <= i < 11 ==>
      Alternatives(cp437)[i](t).Err? && Alternatives(cp437)[i](t).error == UnexpectedEnd
  {
    TextAlternativeShort(cp437, t);
    SkipAlternativeShort(t);
    UnknownAlternativeShort(t);
  }

  lemma TextAlternativeShort(cp437: byte -> char, t: seq<byte>)
    requires |t| < 1 + PayloadLength
    ensures forall wrap: seq<char> -> Descriptor ::
      TextAlternative(cp437, wrap)(t).Err? && TextAlternative(cp437, wrap)(t).error == UnexpectedEnd
  {
    var readPad: Parser<byte> := LeU8;
    assert readPad(t) == LeU8(t);
  }

  lemma SkipAlternativeShort(t: seq<byte>)
    requires |t| < 1 + PayloadLength
    ensures forall d: Descriptor ::
      SkipAlternative(d)(t).Err? && SkipAlternative(d)(t).error == UnexpectedEnd
  {
    var readPad: Parser<byte> := LeU8;
    assert readPad(t) == LeU8(t);
  }

  lemma UnknownAlternativeShort(t: seq<byte>)
    requires |t| < 1 + PayloadLength
    ensures UnknownAlternative()(t).Err? && UnknownAlternative()(t).error == UnexpectedEnd
  {
    var readPad: Parser<byte> := LeU8;
    assert readPad(t) == LeU8(t);
    if 1 <= |t| {
      RepeatBytes(PayloadLength, t[1..]);
      assert Count(LeU8, PayloadLength)(t[1..]) == Repeat(LeU8, PayloadLength, t[1..]);
    }
  }

  /** A text alternative on long enough input skips the padding byte and
      wraps the decoded text of the next 13 bytes. */
  lemma TextAlternativeLong(cp437: byte -> char, wrap: seq<char> -> Descriptor, t: seq<byte>)
    requires 1 + PayloadLength <= |t|
    ensures TextAlternative(cp437, wrap)(t) ==
      Ok(wrap(TextDecoder.DecodeText(cp437, t[1..1 + PayloadLength])), t[1 + PayloadLength..])
  {
    var readPad: Parser<byte> := LeU8;
    assert readPad(t) == Ok(t[0], t[1..]);
    var text := Text(cp437);
    PayloadSlices(t);
    assert text(t[1..]) == Ok(TextDecoder.DecodeText(cp437, t[1..1 + PayloadLength]), t[1 + PayloadLength..]);
  }

  /** A skipping alternative on long enough input gives its fixed variant
      and consumes the padding byte and the 13 payload bytes. */
  lemma SkipAlternativeLong(d: Descriptor, t: seq<byte>)
    requires 1 + PayloadLength <= |t|
    ensures SkipAlternative(d)(t) == Ok(d, t[1 + PayloadLength..])
  {
    var readPad: Parser<byte> := LeU8;
    assert readPad(t) == Ok(t[0], t[1..]);
    var payload := Payload();
    PayloadSlices(t);
    assert payload(t[1..]) == Ok(t[1..1 + PayloadLength], t[1 + PayloadLength..]);
  }

  /** The `Unknown` alternative on long enough input keeps the 13 payload
      bytes after the padding byte. */
  lemma UnknownAlternativeLong(t: seq<byte>)
    requires 1 + PayloadLength <= |t|
    ensures UnknownAlternative()(t) == Ok(Unknown(t[1..1 + PayloadLength]), t[1 + PayloadLength..])
  {
    var readPad: Parser<byte> := LeU8;
    assert readPad(t) == Ok(t[0], t[1..]);
    var payload := Count(LeU8, PayloadLength);
    RepeatBytesLong(PayloadLength, t[1..]);
    PayloadSlices(t);
    assert payload(t[1..]) == Ok(t[1..1 + PayloadLength], t[1 + PayloadLength..]);
  }

  /** The payload after the padding byte, and what follows it. */
  lemma PayloadSlices(t: seq<byte>)
    requires 1 + PayloadLength <= |t|
    ensures t[1..][..PayloadLength] == t[1..1 + PayloadLength]
    ensures t[1..][PayloadLength..] == t[1 + PayloadLength..]
  {
  }

  /** The serial number alternative on long enough input. */
  lemma SerialNumberBranch(cp437: byte -> char, t: seq<byte>)
    requires 1 + PayloadLength <= |t|
    ensures Alternatives(cp437)[0](t) ==
      Ok(SerialNumber(TextDecoder.DecodeText(cp437, t[1..][..PayloadLength])), t[1 + PayloadLength..])
  {
    var readPad: Parser<byte> := LeU8;
    assert readPad(t) == LeU8(t);
    var text := Text(cp437);
    var p := TextDecoder.ParseDescriptorText(cp437, t[1..]);
    assert text(t[1..]) == p;
  }

  /** What the 18 bytes of a slot decode to: a slot opening with two zero
      bytes is read as serial number text from its last 13 bytes, whatever
      its tag byte says; any other slot is a detailed timing. */
  function SlotValue(cp437: byte -> char, slot: seq<byte>): Descriptor
    requires |slot| == DescriptorLength
  {
    if slot[0] == 0 && slot[1] == 0 then
      SerialNumber(TextDecoder.DecodeText(cp437, slot[5..]))
    else
      DetailedTiming(TimingDecoder.DecodeDetailedTiming(slot))
  }

  lemma DescriptorLayout(cp437: byte -> char, input: seq<byte>)
    requires DescriptorLength <= |input|
    ensures ParseDescriptor(cp437, input) ==
      Ok(SlotValue(cp437, input[..DescriptorLength]), input[DescriptorLength..])
  {
    var slot := input[..DescriptorLength];
    assert slot[0] == input[0] && slot[1] == input[1];
    if input[0] == 0 && input[1] == 0 {
      MonitorLayout(cp437, input);
      assert input[5..DescriptorLength] == slot[5..];
    } else {
      TimingLayout(cp437, input);
    }
  }

  lemma MonitorLayout(cp437: byte -> char, input: seq<byte>)
    requires DescriptorLength <= |input| && input[0] == 0 && input[1] == 0
    ensures ParseDescriptor(cp437, input) ==
      Ok(SerialNumber(TextDecoder.DecodeText(cp437, input[5..DescriptorLength])), input[DescriptorLength..])
  {
    PeekType(input);
    LittleEndian16RoundTrip(0, input[0], input[1]);
    assert LittleEndian16(input[0], input[1]) == 0;
  }

  lemma TimingLayout(cp437: byte -> char, input: seq<byte>)
    requires DescriptorLength <= |input| && !(input[0] == 0 && input[1] == 0)
    ensures ParseDescriptor(cp437, input) ==
      Ok(DetailedTiming(TimingDecoder.DecodeDetailedTiming(input[..DescriptorLength])), input[DescriptorLength..])
  {
    PeekType(input);
    LittleEndian16RoundTrip(0, input[0], input[1]);
  }

  /** Of the twelve variants only two are ever produced: the serial number
      alternative is tried first and accepts every monitor descriptor. */
  lemma OnlyTimingOrSerialNumber(cp437: byte -> char, input: seq<byte>)
    ensures var r := ParseDescriptor(cp437, input);
      r.Ok? ==> r.value.DetailedTiming? || r.value.SerialNumber?
  {
    if DescriptorLength <= |input| {
      DescriptorLayout(cp437, input);
    }
  }

  /** In a monitor descriptor, the third header byte, the tag byte and the
      padding byte (bytes 2-4) have no effect on the result. */
  lemma MonitorTagIgnored(cp437: byte -> char, input: seq<byte>, other: seq<byte>)
    requires DescriptorLength <= |input| && input[0] == 0 && input[1] == 0
    requires |other| == |input| && other[..2] == input[..2] && other[5..] == input[5..]
    ensures ParseDescriptor(cp437, other) == ParseDescriptor(cp437, input)
  {
    DescriptorLayout(cp437, input);
    DescriptorLayout(cp437, other);
    SameOutsideTag(input, other);
  }

  /** The slot facts behind MonitorTagIgnored. */
  lemma SameOutsideTag(input: seq<byte>, other: seq<byte>)
    requires DescriptorLength <= |input| && input[0] == 0 && input[1] == 0
    requires |other| == |input| && other[..2] == input[..2] && other[5..] == input[5..]
    ensures var a, b := input[..DescriptorLength], other[..DescriptorLength];
      b[0] == 0 && b[1] == 0 && a[5..] == b[5..]
    ensures other[DescriptorLength..] == input[DescriptorLength..]
  {
    assert other[0] == other[..2][0] && input[0] == input[..2][0];
    assert other[1] == other[..2][1] && input[1] == input[..2][1];
    assert other[5..DescriptorLength] == other[5..][..DescriptorLength - 5];
    assert input[5..DescriptorLength] == input[5..][..DescriptorLength - 5];
    assert other[DescriptorLength..] == other[5..][DescriptorLength - 5..];
    assert input[DescriptorLength..] == input[5..][DescriptorLength - 5..];
  }

  /** The value read from a slot depends on its 18 bytes only. */
  lemma DescriptorDependsOnSlot(cp437: byte -> char, a: seq<byte>, b: seq<byte>)
    requires DescriptorLength <= |a| && DescriptorLength <= |b|
    requires a[..DescriptorLength] == b[..DescriptorLength]
    ensures ParseDescriptor(cp437, a).value == ParseDescriptor(cp437, b).value
  {
    DescriptorLayout(cp437, a);
    DescriptorLayout(cp437, b);
  }

  /** `parse_descriptor` as a parser value, for `count`. */
  function DescriptorParser(cp437: byte -> char): Parser<Descriptor>
  {
    s => ParseDescriptor(cp437, s)
  }

  /** The descriptor parser takes exactly one 18-byte slot. */
  lemma DescriptorConsumesSlot(cp437: byte -> char)
    ensures ConsumesExactly(DescriptorParser(cp437), DescriptorLength)
  {
  }

  /** `count(le_u8, n)` fails exactly when fewer than `n` bytes are left, and
      otherwise returns them. */
  lemma RepeatBytes(n: nat, s: seq<byte>)
    ensures var r := Repeat(LeU8, n, s);
      && (r.Ok? <==> n <= |s|)
      && (r.Err? ==> r.error == UnexpectedEnd)
      && (r.Ok? ==> r.value == s[..n] && r.rest == s[n..])
  {
    if n <= |s| {
      RepeatBytesLong(n, s);
    } else {
      RepeatBytesShort(n, s);
    }
  }

  lemma {:induction false} RepeatBytesShort(n: nat, s: seq<byte>)
    requires |s| < n
    ensures Repeat(LeU8, n, s) == Err(UnexpectedEnd)
  {
    if 1 <= |s| {
      RepeatBytesShort(n - 1, s[1..]);
    }
  }

  lemma {:induction false} RepeatBytesLong(n: nat, s: seq<byte>)
    requires n <= |s|
    ensures Repeat(LeU8, n, s) == Ok(s[..n], s[n..])
  {
    if n > 0 {
      RepeatBytesLong(n - 1, s[1..]);
      assert s[..n] == [s[0]] + s[1..][..n - 1];
      assert s[1..][n - 1..] == s[n..];
    }
  }
}

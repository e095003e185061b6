/** The five basic display parameter bytes (bytes 20-24 of the base block)
    and the three regions after them that the decoder steps over without
    interpreting: chromaticity, established timings and standard timings. */
module DisplayDecoder {
  import opened Nom

  /** Every field is the raw byte. The gamma byte holds `gamma * 100 - 100`;
      the real number is never computed. */
  datatype Display = Display(
    videoInput: byte,
    width: byte,     // cm
    height: byte,    // cm
    gamma: byte,
    features: byte)

  const DisplayLength: nat := 5
  const ChromaticityLength: nat := 10
  const EstablishedTimingLength: nat := 3
  const StandardTimingLength: nat := 16

  function ParseDisplay(input: seq<byte>): (r: Parsed<Display>)
    ensures r.Ok? <==> DisplayLength <= |input|
    ensures r.Err? ==> r.error == UnexpectedEnd
    ensures r.Ok? ==> r.rest == input[DisplayLength..]
    ensures r.Ok? ==>
      && r.value.videoInput == input[0]
      && r.value.width == input[1]
      && r.value.height == input[2]
      && r.value.gamma == input[3]
      && r.value.features == input[4]
  {
    var (videoInput, s0) :- LeU8(input);
    var (width, s1) :- LeU8(s0);
    var (height, s2) :- LeU8(s1);
    var (gamma, s3) :- LeU8(s2);
    var (features, s4) :- LeU8(s3);
    Ok(Display(videoInput, width, height, gamma, features), s4)
  }

  /** The display record is a bijection with its five bytes. */
  function EncodeDisplay(d: Display): (b: seq<byte>)
    ensures |b| == DisplayLength
    ensures ParseDisplay(b) == Ok(d, [])
  {
    [d.videoInput, d.width, d.height, d.gamma, d.features]
  }

  // ---------------------------------------------------------------------------
  // Regions consumed but not decoded

  function ParseChromaticity(input: seq<byte>): (r: Parsed<()>)
    ensures r.Ok? <==> ChromaticityLength <= |input|
    ensures r.Err? ==> r.error == UnexpectedEnd
    ensures r.Ok? ==> r.rest == input[ChromaticityLength..]
  {
    var (_, remaining) :- Take(10, input);
    Ok((), remaining)
  }

  function ParseEstablishedTiming(input: seq<byte>): (r: Parsed<()>)
    ensures r.Ok? <==> EstablishedTimingLength <= |input|
    ensures r.Err? ==> r.error == UnexpectedEnd
    ensures r.Ok? ==> r.rest == input[EstablishedTimingLength..]
  {
    var (_, remaining) :- Take(3, input);
    Ok((), remaining)
  }

  function ParseStandardTiming(input: seq<byte>): (r: Parsed<()>)
    ensures r.Ok? <==> StandardTimingLength <= |input|
    ensures r.Err? ==> r.error == UnexpectedEnd
    ensures r.Ok? ==> r.rest == input[StandardTimingLength..]
  {
    var (_, remaining) :- Take(16, input);
    Ok((), remaining)
  }
}

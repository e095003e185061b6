/** The 13-byte text field of a monitor descriptor: newline bytes are
    dropped, every other byte goes through the code page 437 table, and the
    resulting string is trimmed of whitespace at both ends. */
module TextDecoder {
  import opened Nom

  const TextLength: nat := 13
  const Newline: byte := 0x0A

  /** Unicode's White_Space property, which Rust's `char::is_whitespace`
      tests and `str::trim` strips. */
  predicate IsWhitespace(c: char)
  {
    || '\t' <= c <= '\r'
    || c == ' '
    || c == '\U{0085}'
    || c == '\U{00A0}'
    || c == '\U{1680}'
    || '\U{2000}' <= c <= '\U{200A}'
    || c == '\U{2028}'
    || c == '\U{2029}'
    || c == '\U{202F}'
    || c == '\U{205F}'
    || c == '\U{3000}'
  }

  /** The `filter(|&&c| c != 0x0A)` step: every byte but the newlines, in
      their order. */
  function StripNewlines(b: seq<byte>): (r: seq<byte>)
    ensures |r| <= |b|
    ensures forall i :: 0 <= i < |r| ==> r[i] != Newline
    ensures forall x :: x in r <==> x in b && x != Newline
    ensures multiset(r) == multiset(b)[Newline := 0]
  {
    if b == [] then []
    else
      assert forall x :: x in b <==> x == b[0] || x in b[1..];
      assert b == [b[0]] + b[1..];
      (if b[0] == Newline then [] else [b[0]]) + StripNewlines(b[1..])
  }

  /** One byte is kept exactly when it is not a newline; with
      `StripNewlinesAppend` this fixes the order of the kept bytes. */
  lemma StripNewlinesSingle(x: byte)
    ensures StripNewlines([x]) == if x == Newline then [] else [x]
  {
    assert [x][1..] == [];
  }

  /** Filtering a concatenation filters each part. */
  lemma {:induction false} StripNewlinesAppend(a: seq<byte>, b: seq<byte>)
    ensures StripNewlines(a + b) == StripNewlines(a) + StripNewlines(b)
  {
    if a == [] {
      assert a + b == b;
    } else {
      assert (a + b)[1..] == a[1..] + b;
      StripNewlinesAppend(a[1..], b);
    }
  }

  /** The `map(|&b| cp437::forward(b))` step. */
  function Translate(cp437: byte -> char, b: seq<byte>): (r: seq<char>)
    ensures |r| == |b|
  {
    seq(|b|, i requires 0 <= i < |b| => cp437(b[i]))
  }

  /** `str::trim_start`. */
  function TrimStart(s: seq<char>): (r: seq<char>)
    ensures |r| <= |s| && r == s[|s| - |r|..]
    ensures forall i :: 0 <= i < |s| - |r| ==> IsWhitespace(s[i])
    ensures r != [] ==> !IsWhitespace(r[0])
  {
    if s != [] && IsWhitespace(s[0]) then TrimStart(s[1..]) else s
  }

  /** `str::trim_end`. */
  function TrimEnd(s: seq<char>): (r: seq<char>)
    ensures |r| <= |s| && r == s[..|r|]
    ensures forall i :: |r| <= i < |s| ==> IsWhitespace(s[i])
    ensures r != [] ==> !IsWhitespace(r[|r| - 1])
  {
    if s != [] && IsWhitespace(s[|s| - 1]) then TrimEnd(s[..|s| - 1]) else s
  }

  /** `str::trim`: the longest slice of `s` that neither starts nor ends with
      whitespace, everything cut off on either side being whitespace. */
  function Trim(s: seq<char>): (r: seq<char>)
    ensures |r| <= |s|
    ensures r != [] ==> !IsWhitespace(r[0]) && !IsWhitespace(r[|r| - 1])
    ensures exists k :: (0 <= k <= |s| - |r| && r == s[k..][..|r|] &&
      (forall i :: 0 <= i < k ==> IsWhitespace(s[i])) &&
      (forall i :: k + |r| <= i < |s| ==> IsWhitespace(s[i])))
  {
    var t := TrimStart(s);
    var r := TrimEnd(t);
    var k := |s| - |t|;
    assert r == s[k..][..|r|];
    r
  }

  /** Trimming only removes characters: each one left is at some position
      of the untrimmed string. */
  lemma TrimKeeps(s: seq<char>, i: nat)
    requires i < |Trim(s)|
    ensures exists j :: 0 <= j < |s| && s[j] == Trim(s)[i]
  {
    var t := TrimStart(s);
    assert Trim(s)[i] == t[i] == s[|s| - |t| + i];
  }

  lemma TrimIdempotent(s: seq<char>)
    ensures Trim(Trim(s)) == Trim(s)
  {
    var r := Trim(s);
    if r != [] {
      assert TrimStart(r) == r;
      assert TrimEnd(r) == r;
    }
  }

  /** The text a field decodes to: newlines dropped, the rest translated
      byte by byte, the result trimmed. */
  function DecodeText(cp437: byte -> char, field: seq<byte>): (text: seq<char>)
    ensures |text| <= |field|
    ensures text != [] ==> !IsWhitespace(text[0]) && !IsWhitespace(text[|text| - 1])
  {
    Trim(Translate(cp437, StripNewlines(field)))
  }

  /** `parse_descriptor_text`: exactly 13 bytes, decoded as text. */
  function ParseDescriptorText(cp437: byte -> char, input: seq<byte>): (r: Parsed<seq<char>>)
    ensures r.Ok? <==> TextLength <= |input|
    ensures r.Err? ==> r.error == UnexpectedEnd
    ensures r.Ok? ==> r.rest == input[TextLength..] && r.value == DecodeText(cp437, input[..TextLength])
  {
    var (field, rest) :- Take(TextLength, input);
    Ok(DecodeText(cp437, field), rest)
  }

  /** Every character of the text is the translation of some non-newline
      byte of the field. */
  lemma DecodedTextFromField(cp437: byte -> char, field: seq<byte>)
    ensures var text := DecodeText(cp437, field);
      forall i :: 0 <= i < |text| ==>
        exists j :: 0 <= j < |field| && field[j] != Newline && cp437(field[j]) == text[i]
  {
    var kept := StripNewlines(field);
    var text := DecodeText(cp437, field);
    forall i | 0 <= i < |text|
      ensures exists j :: 0 <= j < |field| && field[j] != Newline && cp437(field[j]) == text[i]
    {
      TrimKeeps(Translate(cp437, kept), i);
      var m :| 0 <= m < |kept| && Translate(cp437, kept)[m] == text[i];
      assert kept[m] in kept;
      var j :| 0 <= j < |field| && field[j] == kept[m];
    }
  }

  /** A field with no newline and no byte that translates to whitespace
      decodes to the translation of every byte. */
  lemma DecodedTextWhole(cp437: byte -> char, field: seq<byte>)
    requires forall j :: 0 <= j < |field| ==> field[j] != Newline && !IsWhitespace(cp437(field[j]))
    ensures DecodeText(cp437, field) == Translate(cp437, field)
  {
    NoNewlinesKept(field);
    var s := Translate(cp437, field);
    assert TrimStart(s) == s;
    assert TrimEnd(s) == s;
  }

  lemma {:induction false} NoNewlinesKept(b: seq<byte>)
    requires forall j :: 0 <= j < |b| ==> b[j] != Newline
    ensures StripNewlines(b) == b
  {
    if b != [] {
      NoNewlinesKept(b[1..]);
    }
  }
}

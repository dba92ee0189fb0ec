/**
  * The text input and output functions: `ruid_out` (src/ruid.c:76-110) and
  * `string_to_ruid` (src/ruid.c:118-196), written as the buffer-filling
  * loops of the source and proved equal to `Format` and `Parse`. The base64
  * routines `b64_ntop` and `b64_pton` (declared at src/ruid.c:25-26, defined
  * outside this file) are taken to be `Encode` and `Decode` of section 4 of
  * RFC 4648 on whole groups.
  */
module RuidText {
  import opened Bytes
  import opened Wrappers
  import opened Base64
  import opened RuidTypes
  import opened RuidCompact
  import opened RuidHex

  /** `string_to_ruid`: 22 characters are the compact form, anything else the hex form; `None` is the syntax error. */
  function Parse(s: string): (r: Option<Ruid>)
  {
    if |s| == 22 then ParseCompact(s) else ParseHex(s)
  }

  /** `ruid_out`: frame the value in an 18-byte buffer, encode it, and append characters 1 to 22 made URL-safe. */
  method RuidOut(v: Ruid) returns (text: string)
    ensures text == Format(v)
  {
    var inb := new byte[18];
    inb[0] := 0;
    var n := 1;
    while n < 17
      invariant 1 <= n <= 17
      invariant inb[0] == 0
      invariant inb[1..n] == v[..n - 1]
    {
      inb[n] := v[n - 1];
      n := n + 1;
    }
    inb[17] := 0;
    assert inb[..] == Framed(v) by {
      assert inb[1..17] == v;
      assert inb[..] == [inb[0]] + inb[1..17] + [inb[17]];
    }
    var out := Encode(inb[..]);
    text := [];
    n := 1;
    while n < 23
      invariant 1 <= n <= 23
      invariant |text| == n - 1
      invariant forall k :: 0 <= k < n - 1 ==> text[k] == ToUrlSafe(out[k + 1])
    {
      text := text + [ToUrlSafe(out[n])];
      n := n + 1;
    }
    assert text == UrlSafe(out[1..23]);
  }

  /** `string_to_ruid`, branch by branch as the source runs it. */
  method StringToRuid(s: string) returns (r: Option<Ruid>)
    ensures r == Parse(s)
  {
    if |s| == 22 {
      r := CompactToRuid(s);
    } else {
      r := HexToRuid(s);
    }
  }

  /**
    * The 22-character branch (src/ruid.c:127-154): copy the input between two
    * `A`s into a 24-character window, mapping `-` and `_` back and refusing
    * any other non-alphanumeric character, decode, and keep bytes 1 to 16.
    */
  method CompactToRuid(s: string) returns (r: Option<Ruid>)
    requires |s| == 22
    ensures r == ParseCompact(s)
  {
    var buf := new char[24];
    buf[0] := 'A';
    var n := 1;
    while n < 23
      invariant 1 <= n <= 23
      invariant buf[0] == 'A'
      invariant forall k :: 0 <= k < n - 1 ==> IsCompactChar(s[k]) && buf[k + 1] == FromUrlSafe(s[k])
    {
      var c := s[n - 1];
      if c == '-' {
        buf[n] := '+';
      } else if c == '_' {
        buf[n] := '/';
      } else {
        if !(IsAsciiAlpha(c) || IsAsciiDigit(c)) {
          assert !IsCompactChar(s[n - 1]);
          return None;
        }
        buf[n] := c;
      }
      n := n + 1;
    }
    buf[23] := 'A';
    assert IsCompactString(s);
    WindowFilled(s, buf[..]);
    var out := Decode(buf[..]);
    // every window character is in the alphabet, so the length test at src/ruid.c:147 always passes
    assert out.Some? && |out.value| == 18;
    r := Some(out.value[1..17]);
  }

  /** The window the copy loop fills is `Window(s)`. */
  lemma WindowFilled(s: string, w: seq<char>)
    requires |s| == 22 && |w| == 24 && w[0] == 'A' && w[23] == 'A'
    requires forall k :: 0 <= k < 22 ==> w[k + 1] == FromUrlSafe(s[k])
    ensures w == Window(s)
  {
    forall k | 0 <= k < 24 ensures w[k] == Window(s)[k] {
      if 1 <= k < 23 {
        assert w[k] == FromUrlSafe(s[k - 1]);
      }
    }
  }

  /**
    * The hex branch (src/ruid.c:156-189): an optional `{`, sixteen octets of
    * two hex digits stored one by one, a `-` skipped after each odd octet but
    * the last, the `}` if the text opened with `{`, and then the end.
    */
  method HexToRuid(s: string) returns (r: Option<Ruid>)
    requires |s| != 22
    ensures r == ParseHex(s)
  {
    var pos := 0;
    var braces := false;
    if |s| > 0 && s[0] == '{' {
      pos := 1;
      braces := true;
    }
    ghost var read := ReadOctets(s, pos, []);
    var data := new byte[RUID_LEN];
    ghost var digits: string := [];
    var i := 0;
    while i < RUID_LEN
      invariant 0 <= i <= RUID_LEN && |digits| == 2 * i && pos <= |s|
      invariant read == ReadOctets(s, pos, digits)
      invariant data[..i] == DigitsValue(digits)
    {
      if pos >= |s| || pos + 1 >= |s| {
        ReadOctetsStops(s, pos, digits);
        ReadFailed(s);
        return None;
      }
      if !IsHexDigit(s[pos]) || !IsHexDigit(s[pos + 1]) {
        ReadOctetsStops(s, pos, digits);
        ReadFailed(s);
        return None;
      }
      data[i] := OctetValue(s[pos], s[pos + 1]);
      assert data[..i + 1] == data[..i] + [OctetValue(s[pos], s[pos + 1])];
      DigitsValueAppend(digits, s[pos], s[pos + 1]);
      ReadOctetsUnfold(s, pos, digits);
      ghost var next := NextPos(s, pos, i);
      digits := digits + [s[pos], s[pos + 1]];
      pos := pos + 2;
      if pos < |s| && s[pos] == '-' && i % 2 == 1 && i < RUID_LEN - 1 {
        pos := pos + 1;
      }
      assert pos == next;
      i := i + 1;
    }
    AfterRead(s, digits, pos);
    if braces {
      if pos >= |s| || s[pos] != '}' {
        return None;
      }
      pos := pos + 1;
    }
    if pos != |s| {
      return None;
    }
    assert data[..] == data[..RUID_LEN];
    r := Some(data[..]);
  }

  // ---------------------------------------------------------------------------
  // What the two text forms promise together.

  /** Output then input gives the value back. */
  lemma RoundTrip(v: Ruid)
    ensures Parse(Format(v)) == Some(v)
  {
    FormatThenParse(v);
  }

  /** A well-formed hex text is never 22 characters long, so it always reaches the hex branch and denotes its digits. */
  lemma ParseHexText(digits: string, hyphens: set<int>, braced: bool)
    requires WellFormed(digits, hyphens)
    ensures Parse(Layout(digits, hyphens, braced)) == Some(DigitsValue(digits))
  {
    BodyLength(digits, hyphens);
    ParseHexComplete(digits, hyphens, braced);
  }

  /** The compact text and the UUID text of a value denote that same value. */
  lemma TextFormsAgree(v: Ruid)
    ensures Parse(Format(v)) == Parse(Layout(ToHexDigits(v), UuidHyphens(), false)) == Some(v)
  {
    RoundTrip(v);
    ToHexDigitsValue(v);
    ParseHexText(ToHexDigits(v), UuidHyphens(), false);
  }

  /** Every input the parser accepts is a compact text or a hex text, and nothing else. */
  lemma ParseAccepts(s: string)
    ensures Parse(s).Some? <==>
            (|s| == 22 && IsCompactString(s)) ||
            (exists digits: string, hyphens: set<int>, braced: bool ::
               WellFormed(digits, hyphens) && s == Layout(digits, hyphens, braced))
  {
    if |s| != 22 && Parse(s).Some? {
      ParseHexSound(s);
    }
    if exists digits: string, hyphens: set<int>, braced: bool ::
         WellFormed(digits, hyphens) && s == Layout(digits, hyphens, braced) {
      var digits: string, hyphens: set<int>, braced: bool :|
        WellFormed(digits, hyphens) && s == Layout(digits, hyphens, braced);
      ParseHexText(digits, hyphens, braced);
    }
  }
}

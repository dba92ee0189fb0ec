/**
  * The compact text form: 22 characters of URL-safe base64. `Format` is the
  * text `ruid_out` produces (src/ruid.c:76-110) and `ParseCompact` the value the
  * 22-character branch of `string_to_ruid` yields (src/ruid.c:127-154). The
  * imperative versions of both live in module RuidText and are proved equal to
  * these functions.
  */
module RuidCompact {
  import opened Bytes
  import opened Wrappers
  import opened Base64
  import opened RuidTypes

  /** `isalpha` in the C locale. */
  predicate IsAsciiAlpha(c: char) {
    'A' <= c <= 'Z' || 'a' <= c <= 'z'
  }

  /** `isdigit` in the C locale. */
  predicate IsAsciiDigit(c: char) {
    '0' <= c <= '9'
  }

  /** A character the compact branch accepts (src/ruid.c:134-141). */
  predicate IsCompactChar(c: char) {
    c == '-' || c == '_' || IsAsciiAlpha(c) || IsAsciiDigit(c)
  }

  predicate IsCompactString(s: string) {
    forall k :: 0 <= k < |s| ==> IsCompactChar(s[k])
  }

  /** The encoder's substitution `+` to `-` and `/` to `_` (src/ruid.c:102-107). */
  function ToUrlSafe(c: char): (d: char)
    ensures IsBase64Char(c) ==> IsCompactChar(d)
  {
    if c == '+' then '-' else if c == '/' then '_' else c
  }

  /** The parser's substitution `-` to `+` and `_` to `/` (src/ruid.c:135-140). */
  function FromUrlSafe(c: char): (d: char)
    ensures IsCompactChar(c) ==> IsBase64Char(d)
  {
    if c == '-' then '+' else if c == '_' then '/' else c
  }

  /** The two substitutions are inverse bijections between the two alphabets. */
  lemma UrlSafeInverse(c: char)
    ensures IsBase64Char(c) ==> FromUrlSafe(ToUrlSafe(c)) == c
    ensures IsCompactChar(c) ==> ToUrlSafe(FromUrlSafe(c)) == c
  {
  }

  function UrlSafe(cs: seq<char>): (r: string)
    ensures |r| == |cs|
    ensures forall k :: 0 <= k < |cs| ==> r[k] == ToUrlSafe(cs[k])
  {
    seq(|cs|, k requires 0 <= k < |cs| => ToUrlSafe(cs[k]))
  }

  function StandardForm(s: string): (r: seq<char>)
    ensures |r| == |s|
    ensures forall k :: 0 <= k < |s| ==> r[k] == FromUrlSafe(s[k])
  {
    seq(|s|, k requires 0 <= k < |s| => FromUrlSafe(s[k]))
  }

  /** The six-bit value a compact character stands for. */
  function CompactValue(c: char): sextet
    requires IsCompactChar(c)
  {
    ValueOf(FromUrlSafe(c))
  }

  /** The 18 bytes `ruid_out` encodes: a zero byte, the value, a zero byte (src/ruid.c:87-90). */
  function Framed(v: Ruid): (f: seq<byte>)
    ensures |f| == 18 && f[0] == 0 && f[17] == 0 && f[1..17] == v
  {
    [0] + v + [0]
  }

  /**
    * The text of `ruid_out`: characters 1 to 22 of the 24-character base64
    * encoding of `Framed(v)`, made URL-safe (src/ruid.c:94-107). It is always
    * 22 characters of the compact alphabet.
    */
  function Format(v: Ruid): (r: string)
    ensures |r| == 22 && IsCompactString(r)
  {
    UrlSafe(Encode(Framed(v))[1..23])
  }

  /** The 24 base64 characters the parser decodes: `A`, the input in the standard alphabet, `A` (src/ruid.c:132-143). */
  function Window(s: string): (w: seq<char>)
    requires |s| == 22
    ensures |w| == 24
  {
    ['A'] + StandardForm(s) + ['A']
  }

  /**
    * The 22-character branch of `string_to_ruid`: reject any character that is
    * not a letter, a digit, `-` or `_`; decode the window; require 18 decoded
    * bytes; keep bytes 1 to 16 (src/ruid.c:127-154).
    */
  function ParseCompact(s: string): (r: Option<Ruid>)
    requires |s| == 22
    ensures r.Some? <==> IsCompactString(s)
  {
    if !IsCompactString(s) then None
    else
      // every window character is in the alphabet, so the decode yields 18 bytes and the length test at src/ruid.c:147 always passes
      var out := Decode(Window(s)).value;
      Some(out[1..17])
  }

  /** The compact text `Format` would give for the value `s` denotes: the two bits of `s[0]` and of `s[21]` the parser ignores are cleared. */
  function Normalize(s: string): (r: string)
    requires |s| == 22 && IsCompactString(s)
  {
    [ToUrlSafe(CharOf(CompactValue(s[0]) % 16))] + s[1..21] + [ToUrlSafe(CharOf(CompactValue(s[21]) / 4 * 4))]
  }

  /** Characters 0 and 23 of the encoder's base64 text encode only the zero filler bits: both are `A`. */
  lemma EncodedEnds(v: Ruid)
    ensures Encode(Framed(v))[0] == 'A' && Encode(Framed(v))[23] == 'A'
  {
    var f := Framed(v);
    EncodeCharAt(f, 0);
    EncodeCharAt(f, 23);
  }

  /** The window of a formatted value is exactly the base64 text the encoder computed. */
  lemma WindowOfFormat(v: Ruid)
    ensures Window(Format(v)) == Encode(Framed(v))
  {
    var e := Encode(Framed(v));
    EncodedEnds(v);
    var f := Format(v);
    var w := Window(f);
    forall j | 0 <= j < 24
      ensures w[j] == e[j]
    {
      if 1 <= j < 23 {
        assert w[j] == FromUrlSafe(f[j - 1]);
        assert f[j - 1] == ToUrlSafe(e[j]);
        UrlSafeInverse(e[j]);
      }
    }
  }

  /** Round trip: parsing the text of any value gives that value back. */
  lemma FormatThenParse(v: Ruid)
    ensures ParseCompact(Format(v)) == Some(v)
  {
    WindowOfFormat(v);
    DecodeEncode(Framed(v));
  }

  /** `Format` is injective: distinct values have distinct texts. */
  lemma FormatInjective(v: Ruid, u: Ruid)
    ensures Format(v) == Format(u) <==> v == u
  {
    FormatThenParse(v);
    FormatThenParse(u);
  }

  /**
    * Re-framing 18 decoded bytes (zeroing bytes 0 and 17, as `ruid_out` does)
    * changes only characters 0, 1, 22 and 23 of their encoding: character 1
    * loses the top two bits of its value and character 22 its low two bits.
    */
  lemma Reframe(out: seq<byte>)
    requires |out| == 18
    ensures var e, e' := Encode(out), Encode(Framed(out[1..17]));
            && (forall j :: 2 <= j < 22 ==> e'[j] == e[j])
            && e'[1] == CharOf(ValueOf(e[1]) % 16)
            && e'[22] == CharOf(ValueOf(e[22]) / 4 * 4)
  {
    ReframeMiddle(out);
    ReframeFirst(out);
    ReframeLast(out);
  }

  lemma ReframeMiddle(out: seq<byte>)
    requires |out| == 18
    ensures forall j :: 2 <= j < 22 ==> Encode(Framed(out[1..17]))[j] == Encode(out)[j]
  {
    var f := Framed(out[1..17]);
    forall j | 2 <= j < 22
      ensures Encode(f)[j] == Encode(out)[j]
    {
      EncodeCharAt(f, j);
      EncodeCharAt(out, j);
      var k := j / 4;
      assert 1 <= 3 * k + 1 < 17;
      assert f[3 * k + 1] == out[3 * k + 1];
      assert k > 0 ==> f[3 * k] == out[3 * k];
      assert k < 5 ==> f[3 * k + 2] == out[3 * k + 2];
      assert SextetAt(f, j) == SextetAt(out, j);
    }
  }

  lemma ReframeFirst(out: seq<byte>)
    requires |out| == 18
    ensures Encode(Framed(out[1..17]))[1] == CharOf(ValueOf(Encode(out)[1]) % 16)
  {
    var f := Framed(out[1..17]);
    EncodeCharAt(f, 1);
    EncodeCharAt(out, 1);
    var c1 := out[0] % 4 * 16 + out[1] / 16;
    assert SextetAt(out, 1) == c1;
    ValueOfCharOf(c1);
    DivModOf(c1, 16, out[0] % 4, out[1] / 16);
    assert SextetAt(f, 1) == c1 % 16;
  }

  lemma ReframeLast(out: seq<byte>)
    requires |out| == 18
    ensures Encode(Framed(out[1..17]))[22] == CharOf(ValueOf(Encode(out)[22]) / 4 * 4)
  {
    var f := Framed(out[1..17]);
    EncodeCharAt(f, 22);
    EncodeCharAt(out, 22);
    var c2 := out[16] % 16 * 4 + out[17] / 64;
    assert SextetAt(out, 22) == c2;
    ValueOfCharOf(c2);
    DivModOf(c2, 4, out[16] % 16, out[17] / 64);
    assert SextetAt(f, 22) == c2 / 4 * 4;
  }

  /** Every valid 22-character string is accepted, and formatting its value gives back the string with the ignored bits cleared. */
  lemma ParseThenFormat(s: string)
    requires |s| == 22 && IsCompactString(s)
    ensures ParseCompact(s).Some?
    ensures Format(ParseCompact(s).value) == Normalize(s)
  {
    var w := Window(s);
    var out := Decode(w).value;
    EncodeDecode(w);
    Reframe(out);
    var v := ParseCompact(s).value;
    assert v == out[1..17];
    var e := Encode(Framed(v));
    var r := Format(v);
    var n := Normalize(s);
    forall j | 0 <= j < 22
      ensures r[j] == n[j]
    {
      assert r[j] == ToUrlSafe(e[j + 1]);
      if 1 <= j < 21 {
        assert e[j + 1] == w[j + 1] == FromUrlSafe(s[j]);
        UrlSafeInverse(s[j]);
      }
    }
  }

  /** A compact character is the URL-safe form of the character of its value. */
  lemma CompactCharOfValue(c: char)
    requires IsCompactChar(c)
    ensures ToUrlSafe(CharOf(CompactValue(c))) == c
  {
    UrlSafeInverse(c);
  }

  /** Two compact characters are equal exactly when their values are. */
  lemma CompactCharsEqual(v: sextet, w: sextet)
    ensures ToUrlSafe(CharOf(v)) == ToUrlSafe(CharOf(w)) <==> v == w
  {
    UrlSafeInverse(CharOf(v));
    UrlSafeInverse(CharOf(w));
    CharOfInjective(v, w);
  }

  /**
    * The strings `Format` produces are exactly the valid 22-character strings
    * whose first character has a value below 16 (`A` to `P`) and whose last
    * character has a value that is a multiple of 4: for those, and only those,
    * formatting the parsed value gives the input back.
    */
  lemma FormatImage(s: string)
    requires |s| == 22 && IsCompactString(s)
    ensures Format(ParseCompact(s).value) == s <==> CompactValue(s[0]) < 16 && CompactValue(s[21]) % 4 == 0
  {
    ParseThenFormat(s);
    NormalizeFixed(s);
  }

  /** A valid string is its own normal form exactly when the bits the parser ignores are already clear. */
  lemma NormalizeFixed(s: string)
    requires |s| == 22 && IsCompactString(s)
    ensures Normalize(s) == s <==> CompactValue(s[0]) < 16 && CompactValue(s[21]) % 4 == 0
  {
    var n := Normalize(s);
    NormalizeFirst(s);
    NormalizeLast(s);
    assert n[1..21] == s[1..21];
    if n[0] == s[0] && n[21] == s[21] {
      assert n == s by {
        forall j | 0 <= j < 22 ensures n[j] == s[j] {
          if 1 <= j < 21 {
            assert n[j] == n[1..21][j - 1];
          }
        }
      }
    }
  }

  /** The first character survives normalisation exactly when its value is below 16. */
  lemma NormalizeFirst(s: string)
    requires |s| == 22 && IsCompactString(s)
    ensures Normalize(s)[0] == s[0] <==> CompactValue(s[0]) < 16
  {
    var x := CompactValue(s[0]);
    CompactCharOfValue(s[0]);
    CompactCharsEqual(x % 16, x);
  }

  /** The last character survives normalisation exactly when its value is a multiple of 4. */
  lemma NormalizeLast(s: string)
    requires |s| == 22 && IsCompactString(s)
    ensures Normalize(s)[21] == s[21] <==> CompactValue(s[21]) % 4 == 0
  {
    var y := CompactValue(s[21]);
    CompactCharOfValue(s[21]);
    CompactCharsEqual(y / 4 * 4, y);
  }

  /**
    * The compact parse is not injective: two valid strings give the same value
    * exactly when they agree once the two bits of the first character and the
    * two bits of the last character that the parser ignores are cleared.
    */
  lemma ParseCompactCollision(s: string, t: string)
    requires |s| == 22 && IsCompactString(s)
    requires |t| == 22 && IsCompactString(t)
    ensures ParseCompact(s) == ParseCompact(t) <==> Normalize(s) == Normalize(t)
  {
    ParseThenFormat(s);
    ParseThenFormat(t);
    FormatInjective(ParseCompact(s).value, ParseCompact(t).value);
  }

  /** Twenty-two `A`s, the text of the all-zero value. */
  function AllA(): (s: string)
    ensures |s| == 22
  {
    seq(22, _ => 'A')
  }

  /** `ruid_out` of the all-zero value is twenty-two `A`s. */
  lemma FormatZero()
    ensures Format(ZERO) == AllA()
  {
    FormatOfZeros(ZERO);
  }

  /** A value of zero bytes prints as twenty-two `A`s. */
  lemma FormatOfZeros(v: Ruid)
    requires forall i :: 0 <= i < RUID_LEN ==> v[i] == 0
    ensures Format(v) == AllA()
  {
    var f := Framed(v);
    assert forall i :: 0 <= i < 18 ==> f[i] == 0 by {
      forall i | 1 <= i < 17 ensures f[i] == 0 {
        assert f[i] == f[1..17][i - 1];
      }
    }
    EncodeZeros(f);
    UrlSafeOfAs();
  }

  /** Twenty-two `A`s are their own URL-safe form. */
  lemma UrlSafeOfAs()
    ensures UrlSafe(AllA()) == AllA()
  {
  }

  /** Character `j` of a 24-character encoding comes from bytes `3 * (j / 4)` to `3 * (j / 4) + 2` of 18. */
  lemma GroupOf(j: nat)
    requires j < 24
    ensures 0 <= 3 * (j / 4) && 3 * (j / 4) + 2 < 18
  {
  }

  /** Eighteen zero bytes encode to twenty-four `A`s, so the twenty-two kept are `AllA()`. */
  lemma EncodeZeros(f: seq<byte>)
    requires |f| == 18 && forall i :: 0 <= i < 18 ==> f[i] == 0
    ensures |Encode(f)| == 24 && Encode(f)[1..23] == AllA()
  {
    var e := Encode(f);
    forall j | 1 <= j < 23
      ensures e[j] == 'A'
    {
      GroupOf(j);
      var k := j / 4;
      assert f[3 * k] == 0 && f[3 * k + 1] == 0 && f[3 * k + 2] == 0;
      assert SextetAt(f, j) == 0;
      EncodeCharAt(f, j);
    }
    assert e[1..23] == AllA() by {
      forall j | 0 <= j < 22 ensures e[1..23][j] == AllA()[j] {
        assert e[1..23][j] == e[j + 1];
      }
    }
  }

  /**
    * A concrete collision: twenty-two `A`s and `Q` followed by twenty-one `A`s
    * both parse to the all-zero value (`Q` is 16, whose top bits are ignored).
    */
  lemma ZeroCollision()
    ensures ParseCompact(AllA()) == Some(ZERO)
    ensures ParseCompact(['Q'] + AllA()[1..]) == Some(ZERO)
  {
    var a := AllA();
    var q := ['Q'] + a[1..];
    FormatZero();
    FormatThenParse(ZERO);
    NormalizeLeadingQ();
    ParseCompactCollision(a, q);
  }

  /** `Q` (value 16) and `A` (value 0) differ only in the bits the parser ignores. */
  lemma NormalizeLeadingQ()
    ensures var a := AllA();
            var q := ['Q'] + a[1..];
            IsCompactString(q) && IsCompactString(a) && Normalize(q) == Normalize(a)
  {
    var a := AllA();
    var q := ['Q'] + a[1..];
    assert q[0] == 'Q' && a[0] == 'A';
    assert CompactValue('Q') == 16 && CompactValue('A') == 0;
    assert q[1..21] == a[1..21] && q[21] == a[21];
  }
}

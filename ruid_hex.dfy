/**
  * The hexadecimal text form accepted by `string_to_ruid` for every input
  * whose length is not 22 (src/ruid.c:156-196): an optional `{`, sixteen
  * octets of two case-insensitive hex digits, an optional `-` after each odd
  * octet but the last (that is, after every four hex digits), the matching
  * `}`, and nothing more.
  *
  * `ParseHex` follows the code; `Layout` is an independent description of the
  * accepted strings, and the two are proved to agree in both directions.
  * Octet indices are not passed around: the octet being read is the number of
  * digit pairs read so far, and the octet a body starts with is sixteen
  * minus the number of pairs it holds.
  */
module RuidHex {
  import opened Bytes
  import opened Wrappers
  import opened RuidTypes

  /** `isxdigit` in the C locale. */
  predicate IsHexDigit(c: char) {
    '0' <= c <= '9' || 'a' <= c <= 'f' || 'A' <= c <= 'F'
  }

  /**
    * The value of a hex digit, and 0 for any other character: the octet loop
    * only applies it to characters it has checked (`ReadOctetsSound` proves
    * the digits it collects are all hex digits).
    */
  function HexValue(c: char): (v: nat)
    ensures v < 16
  {
    if '0' <= c <= '9' then c as int - '0' as int
    else if 'a' <= c <= 'f' then c as int - 'a' as int + 10
    else if 'A' <= c <= 'F' then c as int - 'A' as int + 10
    else 0
  }

  /** Hex digits are case-insensitive: `a`-`f` and `A`-`F` are digits with the same values. */
  lemma HexDigitCaseInsensitive(k: nat)
    requires k < 6
    ensures var lower, upper := ('a' as int + k) as char, ('A' as int + k) as char;
            IsHexDigit(lower) && IsHexDigit(upper) && HexValue(lower) == HexValue(upper) == 10 + k
  {
  }

  /** `strtoul` of a two-digit hex string (src/ruid.c:173-174). */
  function OctetValue(hi: char, lo: char): byte {
    16 * HexValue(hi) + HexValue(lo)
  }

  /** A `-` may follow octet `i`: an odd index below 15 (src/ruid.c:176). */
  predicate HyphenSlot(i: int) {
    i % 2 == 1 && i < RUID_LEN - 1
  }

  /** Digit strings of whole octets, at most sixteen of them. */
  predicate Pairs(digits: string) {
    |digits| % 2 == 0 && |digits| <= 2 * RUID_LEN
  }

  /**
    * The octet loop of src/ruid.c:163-178 at position `pos`, with the digit
    * pairs read so far in `acc` (so the octet being read is `|acc| / 2`); on
    * success, the 32 digits read and the position after the last octet (and
    * after its hyphen, if any). The octets themselves are `DigitsValue` of
    * the digits.
    */
  function ReadOctets(s: string, pos: nat, acc: string): (r: Option<(string, nat)>)
    requires Pairs(acc) && pos <= |s|
    ensures r.Some? ==> |r.value.0| == 2 * RUID_LEN && pos <= r.value.1 <= |s|
    decreases 2 * RUID_LEN - |acc|
  {
    if |acc| == 2 * RUID_LEN then Some((acc, pos))
    else if pos >= |s| || pos + 1 >= |s| then None
    else if !IsHexDigit(s[pos]) || !IsHexDigit(s[pos + 1]) then None
    else ReadOctets(s, NextPos(s, pos, |acc| / 2), acc + [s[pos], s[pos + 1]])
  }

  /** Where the octet after octet `i`, read at `pos`, starts: one `-` is skipped when octet `i` may have one (src/ruid.c:175-177). */
  function NextPos(s: string, pos: nat, i: nat): (next: nat)
    requires pos + 2 <= |s|
    ensures pos + 2 <= next <= |s|
  {
    if pos + 2 < |s| && s[pos + 2] == '-' && HyphenSlot(i) then pos + 3 else pos + 2
  }

  /** The hex branch of `string_to_ruid` (src/ruid.c:158-189). */
  function ParseHex(s: string): (r: Option<Ruid>)
  {
    var braces := |s| > 0 && s[0] == '{';
    var start := if braces then 1 else 0;
    match ReadOctets(s, start, [])
    case None => None
    case Some((digits, end)) =>
      if braces && (end >= |s| || s[end] != '}') then None
      else
        var fin := if braces then end + 1 else end;
        if fin != |s| then None else Some(DigitsValue(digits))
  }

  // ---------------------------------------------------------------------------
  // The accepted language, described independently of the loop.

  predicate AllHex(digits: string) {
    forall k :: 0 <= k < |digits| ==> IsHexDigit(digits[k])
  }

  /** Hyphen positions the grammar allows. */
  predicate Slots(hyphens: set<int>) {
    forall h :: h in hyphens ==> HyphenSlot(h)
  }

  /** The 32 digits and the hyphen positions of a well-formed hex text. */
  predicate WellFormed(digits: string, hyphens: set<int>) {
    |digits| == 2 * RUID_LEN && AllHex(digits) && Slots(hyphens)
  }

  /** The index of the first octet of a body that holds `digits`. */
  function FirstOctet(digits: string): int {
    RUID_LEN - |digits| / 2
  }

  /** The last octets written out: the two digits of each, followed by `-` when its index is in `hyphens`. */
  function Body(digits: string, hyphens: set<int>): (r: string)
    requires Pairs(digits)
    ensures |digits| <= |r|
    decreases |digits|
  {
    if digits == [] then []
    else digits[..2] + (if FirstOctet(digits) in hyphens then "-" else "") + Body(digits[2..], hyphens)
  }

  /** A complete hex text: optional braces around the body. */
  function Layout(digits: string, hyphens: set<int>, braced: bool): string
    requires |digits| == 2 * RUID_LEN
  {
    (if braced then "{" else "") + Body(digits, hyphens) + (if braced then "}" else "")
  }

  /** The bytes the digit pairs spell, big-endian within each pair. */
  function DigitsValue(digits: string): (v: seq<byte>)
    requires |digits| % 2 == 0
    ensures |v| == |digits| / 2
    decreases |digits|
  {
    if digits == [] then []
    else [OctetValue(digits[0], digits[1])] + DigitsValue(digits[2..])
  }

  // ---------------------------------------------------------------------------
  // The loop reads exactly the well-formed bodies.

  /** Hyphen positions before the body's first octet do not affect it. */
  lemma {:induction false} BodyIgnoresEarlierSlots(digits: string, h: set<int>, h': set<int>)
    requires Pairs(digits)
    requires forall j :: FirstOctet(digits) <= j ==> (j in h <==> j in h')
    ensures Body(digits, h) == Body(digits, h')
    decreases |digits|
  {
    if digits != [] {
      BodyIgnoresEarlierSlots(digits[2..], h, h');
    }
  }

  /** One turn of the loop, on two hex digits. */
  lemma ReadOctetsUnfold(s: string, pos: nat, acc: string)
    requires Pairs(acc) && |acc| < 2 * RUID_LEN && pos + 1 < |s|
    requires IsHexDigit(s[pos]) && IsHexDigit(s[pos + 1])
    ensures ReadOctets(s, pos, acc) == ReadOctets(s, NextPos(s, pos, |acc| / 2), acc + [s[pos], s[pos + 1]])
  {
  }

  /** A well-formed body sits in `s` at `pos`, after the `acc` digits already read. */
  predicate BodyAt(s: string, pos: nat, acc: string, digits: string, hyphens: set<int>) {
    && Pairs(acc) && Pairs(digits) && |acc| + |digits| == 2 * RUID_LEN
    && AllHex(digits) && Slots(hyphens)
    && pos + |Body(digits, hyphens)| <= |s|
    && s[pos..pos + |Body(digits, hyphens)|] == Body(digits, hyphens)
  }

  /** The loop reads any well-formed body, whatever follows it, and stops right after it. */
  lemma {:induction false} ReadBody(s: string, pos: nat, acc: string, digits: string, hyphens: set<int>)
    requires BodyAt(s, pos, acc, digits, hyphens)
    ensures ReadOctets(s, pos, acc) == Some((acc + digits, pos + |Body(digits, hyphens)|))
    decreases |digits|
  {
    if digits == [] {
      assert acc + digits == acc;
    } else {
      var next := pos + 2 + (if FirstOctet(digits) in hyphens then 1 else 0);
      var acc' := acc + [s[pos], s[pos + 1]];
      ReadBodyStep(s, pos, acc, digits, hyphens);
      ReadBody(s, next, acc', digits[2..], hyphens);
      assert acc' + digits[2..] == acc + digits;
    }
  }

  /** One octet of a well-formed body: the loop reads its digits and moves past them and past its hyphen, to the rest of the body. */
  lemma ReadBodyStep(s: string, pos: nat, acc: string, digits: string, hyphens: set<int>)
    requires BodyAt(s, pos, acc, digits, hyphens) && digits != []
    ensures pos + 1 < |s| && s[pos] == digits[0] && s[pos + 1] == digits[1]
    ensures var next := pos + 2 + (if FirstOctet(digits) in hyphens then 1 else 0);
            && ReadOctets(s, pos, acc) == ReadOctets(s, next, acc + [s[pos], s[pos + 1]])
            && next + |Body(digits[2..], hyphens)| == pos + |Body(digits, hyphens)|
            && BodyAt(s, next, acc + [s[pos], s[pos + 1]], digits[2..], hyphens)
  {
    var i := FirstOctet(digits);
    var b := Body(digits, hyphens);
    var rest := Body(digits[2..], hyphens);
    var gap := if i in hyphens then 1 else 0;
    assert i == |acc| / 2;
    assert b == digits[..2] + (if i in hyphens then "-" else "") + rest;
    assert s[pos] == b[0] && s[pos + 1] == b[1];
    assert IsHexDigit(digits[0]) && IsHexDigit(digits[1]);
    if i in hyphens {
      assert s[pos + 2] == b[2];
    } else if |digits| > 2 {
      assert s[pos + 2] == b[2] == digits[2];
      assert IsHexDigit(digits[2]);
    }
    assert NextPos(s, pos, i) == pos + 2 + gap;
    ReadOctetsUnfold(s, pos, acc);
    assert b[2 + gap..] == rest;
    assert AllHex(digits[2..]) by {
      forall k | 0 <= k < |digits| - 2 ensures IsHexDigit(digits[2..][k]) {
        assert digits[2..][k] == digits[k + 2];
      }
    }
  }

  /** Whatever the loop accepts is a well-formed body after the digits already read. */
  lemma {:induction false} ReadOctetsSound(s: string, pos: nat, acc: string)
    requires Pairs(acc) && pos <= |s|
    requires ReadOctets(s, pos, acc).Some?
    ensures var (digits, end) := ReadOctets(s, pos, acc).value;
            && digits[..|acc|] == acc
            && AllHex(digits[|acc|..])
            && exists hyphens: set<int> :: Slots(hyphens) && s[pos..end] == Body(digits[|acc|..], hyphens)
    decreases 2 * RUID_LEN - |acc|
  {
    var (digits, end) := ReadOctets(s, pos, acc).value;
    if |acc| == 2 * RUID_LEN {
      var e: set<int> := {};
      assert s[pos..end] == Body(digits[|acc|..], e);
    } else {
      var next := NextPos(s, pos, |acc| / 2);
      var acc' := acc + [s[pos], s[pos + 1]];
      ReadOctetsSound(s, next, acc');
      var h' :| Slots(h') && s[next..end] == Body(digits[|acc| + 2..], h');
      SoundStep(s, pos, acc, digits, end, h');
    }
  }

  /** One octet added in front of a well-formed rest. */
  lemma SoundStep(s: string, pos: nat, acc: string, digits: string, end: nat, h': set<int>)
    requires Pairs(acc) && |acc| < 2 * RUID_LEN && pos + 1 < |s|
    requires IsHexDigit(s[pos]) && IsHexDigit(s[pos + 1])
    requires |digits| == 2 * RUID_LEN && NextPos(s, pos, |acc| / 2) <= end <= |s|
    requires digits[..|acc| + 2] == acc + [s[pos], s[pos + 1]]
    requires AllHex(digits[|acc| + 2..])
    requires Slots(h') && s[NextPos(s, pos, |acc| / 2)..end] == Body(digits[|acc| + 2..], h')
    ensures digits[..|acc|] == acc && AllHex(digits[|acc|..])
    ensures exists hyphens: set<int> :: Slots(hyphens) && s[pos..end] == Body(digits[|acc|..], hyphens)
  {
    var i := |acc| / 2;
    var next := NextPos(s, pos, i);
    var hyphens := (h' - {i}) + (if next == pos + 3 then {i} else {});
    var d := digits[|acc|..];
    assert digits[..|acc|] == acc by {
      assert digits[..|acc|] == (acc + [s[pos], s[pos + 1]])[..|acc|];
    }
    assert d[..2] == [s[pos], s[pos + 1]] by {
      assert d[..2] == digits[..|acc| + 2][|acc|..];
    }
    assert d[2..] == digits[|acc| + 2..];
    AllHexFront(d);
    assert FirstOctet(d) == i;
    assert s[pos..pos + 2] == d[..2];
    assert s[pos + 2..next] == if i in hyphens then "-" else "" by {
      if pos + 2 < |s| && s[pos + 2] == '-' && HyphenSlot(i) {
        assert next == pos + 3 && i in hyphens;
        assert s[pos + 2..next] == [s[pos + 2]];
      } else {
        assert next == pos + 2 && i !in hyphens;
      }
    }
    assert forall j :: i < j ==> (j in hyphens <==> j in h');
    BodyFront(s, pos, next, end, d, hyphens, h');
  }

  /** Two hex digits in front of hex digits. */
  lemma AllHexFront(d: string)
    requires |d| >= 2 && IsHexDigit(d[0]) && IsHexDigit(d[1]) && AllHex(d[2..])
    ensures AllHex(d)
  {
    forall k | 2 <= k < |d| ensures IsHexDigit(d[k]) {
      assert d[k] == d[2..][k - 2];
    }
  }

  /** A text holding an octet, its hyphen if `hyphens` has one for it, and then a body, holds the whole body. */
  lemma BodyFront(s: string, pos: nat, next: nat, end: nat, d: string, hyphens: set<int>, h': set<int>)
    requires Pairs(d) && d != [] && pos + 2 <= next <= end <= |s|
    requires s[pos..pos + 2] == d[..2]
    requires s[pos + 2..next] == if FirstOctet(d) in hyphens then "-" else ""
    requires s[next..end] == Body(d[2..], h')
    requires forall j :: FirstOctet(d) < j ==> (j in hyphens <==> j in h')
    ensures s[pos..end] == Body(d, hyphens)
  {
    BodyCons(d, hyphens, h');
    assert s[pos..end] == s[pos..pos + 2] + s[pos + 2..next] + s[next..end];
  }

  /** A body is its first octet, its hyphen if any, and the body after it, whatever hyphens that one has before it. */
  lemma BodyCons(d: string, hyphens: set<int>, h': set<int>)
    requires Pairs(d) && d != []
    requires forall j :: FirstOctet(d) < j ==> (j in hyphens <==> j in h')
    ensures Body(d, hyphens) == d[..2] + (if FirstOctet(d) in hyphens then "-" else "") + Body(d[2..], h')
  {
    BodyIgnoresEarlierSlots(d[2..], hyphens, h');
  }

  // ---------------------------------------------------------------------------
  // The hex branch accepts exactly the well-formed texts.

  /** What the hex branch makes of a text once the loop has read `digits` up to `end`. */
  lemma AfterRead(s: string, digits: string, end: nat)
    requires ReadOctets(s, if |s| > 0 && s[0] == '{' then 1 else 0, []) == Some((digits, end))
    ensures var braces := |s| > 0 && s[0] == '{';
            ParseHex(s) == if braces && (end >= |s| || s[end] != '}') then None
                           else if (if braces then end + 1 else end) != |s| then None
                           else Some(DigitsValue(digits))
  {
  }

  /** Without a `{`, the loop reads a body at the start of the text. */
  lemma ReadsBare(s: string, digits: string, hyphens: set<int>)
    requires WellFormed(digits, hyphens)
    requires |Body(digits, hyphens)| <= |s| && s[..|Body(digits, hyphens)|] == Body(digits, hyphens)
    ensures s[0] != '{' && ReadOctets(s, 0, []) == Some((digits, |Body(digits, hyphens)|))
  {
    var body := Body(digits, hyphens);
    assert s[0] == body[0] == digits[0] by {
      assert body[..2] == digits[..2];
    }
    assert IsHexDigit(digits[0]);
    assert s[0..|body|] == body;
    ReadBody(s, 0, [], digits, hyphens);
    assert [] + digits == digits;
  }

  /** After a `{`, the loop reads a body from the second character. */
  lemma ReadsBraced(s: string, digits: string, hyphens: set<int>)
    requires WellFormed(digits, hyphens)
    requires |Body(digits, hyphens)| < |s| && s[1..|Body(digits, hyphens)| + 1] == Body(digits, hyphens)
    ensures ReadOctets(s, 1, []) == Some((digits, |Body(digits, hyphens)| + 1))
  {
    ReadBody(s, 1, [], digits, hyphens);
    assert [] + digits == digits;
  }

  /** When the loop fails, so does the hex branch. */
  lemma ReadFailed(s: string)
    requires ReadOctets(s, if |s| > 0 && s[0] == '{' then 1 else 0, []) == None
    ensures ParseHex(s) == None
  {
  }

  /** The loop fails at an octet that is cut short or holds a character that is not a hex digit. */
  lemma ReadOctetsStops(s: string, pos: nat, acc: string)
    requires Pairs(acc) && |acc| < 2 * RUID_LEN && pos <= |s|
    requires pos + 1 >= |s| || !IsHexDigit(s[pos]) || !IsHexDigit(s[pos + 1])
    ensures ReadOctets(s, pos, acc) == None
  {
  }

  /** Every well-formed text, braced or not, parses to the octets its digits spell. */
  lemma ParseHexComplete(digits: string, hyphens: set<int>, braced: bool)
    requires WellFormed(digits, hyphens)
    ensures ParseHex(Layout(digits, hyphens, braced)) == Some(DigitsValue(digits))
  {
    var s := Layout(digits, hyphens, braced);
    var body := Body(digits, hyphens);
    if braced {
      assert s == "{" + body + "}";
      assert s[1..|body| + 1] == body;
      ReadsBraced(s, digits, hyphens);
      AfterRead(s, digits, |body| + 1);
    } else {
      assert s == body && s[..|body|] == body;
      ReadsBare(s, digits, hyphens);
      AfterRead(s, digits, |body|);
    }
  }

  /** Anything after a complete text is refused: a `-` after the last octet, a second `}`, a newline. */
  lemma TrailingRejected(digits: string, hyphens: set<int>, braced: bool, tail: string)
    requires WellFormed(digits, hyphens) && tail != []
    ensures ParseHex(Layout(digits, hyphens, braced) + tail) == None
  {
    var s := Layout(digits, hyphens, braced) + tail;
    var body := Body(digits, hyphens);
    if braced {
      assert s == "{" + body + "}" + tail;
      assert s[1..|body| + 1] == body && s[0] == '{' && s[|body| + 1] == '}';
      ReadsBraced(s, digits, hyphens);
      AfterRead(s, digits, |body| + 1);
    } else {
      assert s == body + tail && s[..|body|] == body;
      ReadsBare(s, digits, hyphens);
      AfterRead(s, digits, |body|);
    }
  }

  /** An opening `{` without its `}` is refused. */
  lemma UnclosedBraceRejected(digits: string, hyphens: set<int>)
    requires WellFormed(digits, hyphens)
    ensures ParseHex("{" + Body(digits, hyphens)) == None
  {
    var s := "{" + Body(digits, hyphens);
    var body := Body(digits, hyphens);
    assert s[1..|body| + 1] == body && s[0] == '{';
    ReadsBraced(s, digits, hyphens);
    AfterRead(s, digits, |body| + 1);
  }

  /** Whatever the hex branch accepts is a well-formed text, and its value is what the digits spell. */
  lemma ParseHexSound(s: string)
    requires ParseHex(s).Some?
    ensures exists digits: string, hyphens: set<int>, braced: bool ::
              && WellFormed(digits, hyphens)
              && s == Layout(digits, hyphens, braced)
              && ParseHex(s).value == DigitsValue(digits)
  {
    var braced := |s| > 0 && s[0] == '{';
    var start := if braced then 1 else 0;
    var none: string := [];
    ReadOctetsSound(s, start, none);
    var (digits, end) := ReadOctets(s, start, none).value;
    assert digits[|none|..] == digits;
    var hyphens :| Slots(hyphens) && s[start..end] == Body(digits, hyphens);
    AfterRead(s, digits, end);
    LayoutAround(s, digits, hyphens, braced, end);
  }

  /** A text that is a body, or `{`, a body and `}`, with nothing after, is a layout. */
  lemma LayoutAround(s: string, digits: string, hyphens: set<int>, braced: bool, end: nat)
    requires |digits| == 2 * RUID_LEN && (if braced then 1 else 0) <= end <= |s|
    requires s[(if braced then 1 else 0)..end] == Body(digits, hyphens)
    requires braced ==> s[0] == '{' && end + 1 == |s| && s[end] == '}'
    requires !braced ==> end == |s|
    ensures s == Layout(digits, hyphens, braced)
  {
    if braced {
      assert s == s[..1] + s[1..end] + s[end..];
    } else {
      assert s == s[0..end];
    }
  }

  /** The two directions together: the hex branch yields `v` from `s` exactly when `s` lays out digits that spell `v`. */
  lemma ParseHexIff(s: string, v: Ruid)
    ensures ParseHex(s) == Some(v) <==>
            exists digits: string, hyphens: set<int>, braced: bool ::
              WellFormed(digits, hyphens) && s == Layout(digits, hyphens, braced) && DigitsValue(digits) == v
  {
    if ParseHex(s) == Some(v) {
      ParseHexSound(s);
    }
    if exists digits: string, hyphens: set<int>, braced: bool ::
         WellFormed(digits, hyphens) && s == Layout(digits, hyphens, braced) && DigitsValue(digits) == v {
      var digits: string, hyphens: set<int>, braced: bool :|
        WellFormed(digits, hyphens) && s == Layout(digits, hyphens, braced) && DigitsValue(digits) == v;
      ParseHexComplete(digits, hyphens, braced);
    }
  }

  /** Hyphens and braces do not change the value. */
  lemma HyphensIgnored(digits: string, hyphens: set<int>, braced: bool)
    requires WellFormed(digits, hyphens)
    ensures ParseHex(Layout(digits, hyphens, braced)) == ParseHex(Layout(digits, {}, false))
  {
    ParseHexComplete(digits, hyphens, braced);
    ParseHexComplete(digits, {}, false);
  }

  /** A body holds its digits and at most one hyphen for each odd octet but the last. */
  lemma {:induction false} BodyLength(digits: string, hyphens: set<int>)
    requires Pairs(digits) && Slots(hyphens)
    ensures |digits| <= |Body(digits, hyphens)| <= |digits| + (if digits == [] then 0 else (|digits| / 2 - 1) / 2)
    decreases |digits|
  {
    if digits != [] {
      BodyLength(digits[2..], hyphens);
    }
  }

  /** An accepted hex text is 32 to 41 characters long: 32 digits, up to seven hyphens, two braces. */
  lemma ParseHexLength(s: string)
    requires ParseHex(s).Some?
    ensures 2 * RUID_LEN <= |s| <= 2 * RUID_LEN + 7 + 2
  {
    ParseHexSound(s);
    var digits: string, hyphens: set<int>, braced: bool :|
      WellFormed(digits, hyphens) && s == Layout(digits, hyphens, braced) && ParseHex(s).value == DigitsValue(digits);
    BodyLength(digits, hyphens);
  }

  /** A `-` in a body stands between two hex digits: never first, never last, never doubled. */
  predicate HyphensInside(t: string) {
    forall k :: 0 <= k < |t| && t[k] == '-' ==> 0 < k < |t| - 1 && IsHexDigit(t[k - 1]) && IsHexDigit(t[k + 1])
  }

  lemma {:induction false} BodyHyphensInside(digits: string, hyphens: set<int>)
    requires Pairs(digits) && AllHex(digits) && Slots(hyphens)
    ensures digits != [] ==> IsHexDigit(Body(digits, hyphens)[0])
    ensures HyphensInside(Body(digits, hyphens))
    decreases |digits|
  {
    if digits != [] {
      var b := Body(digits, hyphens);
      var rest := Body(digits[2..], hyphens);
      var gap := if FirstOctet(digits) in hyphens then 1 else 0;
      assert AllHex(digits[2..]) by {
        forall k | 0 <= k < |digits| - 2 ensures IsHexDigit(digits[2..][k]) {
          assert digits[2..][k] == digits[k + 2];
        }
      }
      BodyHyphensInside(digits[2..], hyphens);
      assert b == digits[..2] + (if gap == 1 then "-" else "") + rest;
      assert IsHexDigit(digits[0]) && IsHexDigit(digits[1]);
      if gap == 1 {
        assert HyphenSlot(FirstOctet(digits));
        assert digits[2..] != [];
      }
      forall k | 0 <= k < |b| && b[k] == '-'
        ensures 0 < k < |b| - 1 && IsHexDigit(b[k - 1]) && IsHexDigit(b[k + 1])
      {
        if k < 2 {
          assert false;
        } else if k == 2 && gap == 1 {
          assert b[1] == digits[1] && b[3] == rest[0];
        } else {
          var j := k - 2 - gap;
          assert b[k] == rest[j];
          assert 0 < j < |rest| - 1;
          assert b[k - 1] == rest[j - 1] && b[k + 1] == rest[j + 1];
        }
      }
    }
  }

  /** Braces around a body add no hyphen. */
  lemma LayoutHyphensInside(digits: string, hyphens: set<int>, braced: bool)
    requires WellFormed(digits, hyphens)
    ensures HyphensInside(Layout(digits, hyphens, braced))
  {
    var s := Layout(digits, hyphens, braced);
    var b := Body(digits, hyphens);
    BodyHyphensInside(digits, hyphens);
    var off := if braced then 1 else 0;
    assert |s| == |b| + 2 * off;
    forall k | 0 <= k < |s| && s[k] == '-'
      ensures 0 < k < |s| - 1 && IsHexDigit(s[k - 1]) && IsHexDigit(s[k + 1])
    {
      assert off <= k < off + |b| by {
        if braced {
          assert s[0] == '{' && s[|s| - 1] == '}';
        }
      }
      assert s[k] == b[k - off] && s[k - 1] == b[k - off - 1] && s[k + 1] == b[k - off + 1];
    }
  }

  /** In an accepted text, a `-` stands between two hex digits: a leading, trailing or doubled hyphen, or one next to a brace, is refused. */
  lemma AcceptedHyphensInside(s: string)
    requires ParseHex(s).Some?
    ensures HyphensInside(s)
  {
    ParseHexSound(s);
    var digits: string, hyphens: set<int>, braced: bool :|
      WellFormed(digits, hyphens) && s == Layout(digits, hyphens, braced) && ParseHex(s).value == DigitsValue(digits);
    LayoutHyphensInside(digits, hyphens, braced);
  }

  // ---------------------------------------------------------------------------
  // Octet by octet, and every value has a text.

  /** Reading one more digit pair appends one octet: the octet-by-octet store of src/ruid.c:174 builds `DigitsValue`. */
  lemma {:induction false} DigitsValueAppend(digits: string, hi: char, lo: char)
    requires |digits| % 2 == 0
    ensures DigitsValue(digits + [hi, lo]) == DigitsValue(digits) + [OctetValue(hi, lo)]
    decreases |digits|
  {
    if digits == [] {
      assert ([] + [hi, lo])[2..] == [];
    } else {
      assert (digits + [hi, lo])[2..] == digits[2..] + [hi, lo];
      DigitsValueAppend(digits[2..], hi, lo);
    }
  }

  /** The lower-case hex digit for `n`. */
  function HexDigit(n: nat): (c: char)
    requires n < 16
    ensures IsHexDigit(c) && HexValue(c) == n
  {
    if n < 10 then ('0' as int + n) as char else ('a' as int + n - 10) as char
  }

  /** Two hex digits per octet, high digit first. */
  function ToHexDigits(v: seq<byte>): (digits: string)
    ensures |digits| == 2 * |v|
    ensures AllHex(digits)
  {
    if v == [] then [] else [HexDigit(v[0] / 16), HexDigit(v[0] % 16)] + ToHexDigits(v[1..])
  }

  /** The digits of a value spell that value. */
  lemma {:induction false} ToHexDigitsValue(v: seq<byte>)
    ensures DigitsValue(ToHexDigits(v)) == v
  {
    if v != [] {
      var d := ToHexDigits(v);
      assert d[2..] == ToHexDigits(v[1..]);
      ToHexDigitsValue(v[1..]);
      assert [v[0]] + v[1..] == v;
    }
  }

  /** The UUID layout 8-4-4-4-12: hyphens after octets 3, 5, 7 and 9. */
  function UuidHyphens(): (h: set<int>)
    ensures Slots(h) && |h| == 4
  {
    {3, 5, 7, 9}
  }

  /** Every value has a UUID text, and the hex branch reads it back. */
  lemma UuidTextParses(v: Ruid)
    ensures ParseHex(Layout(ToHexDigits(v), UuidHyphens(), false)) == Some(v)
  {
    ToHexDigitsValue(v);
    ParseHexComplete(ToHexDigits(v), UuidHyphens(), false);
  }
}

/**
  * Base64 as defined in section 4 of RFC 4648, restricted to what the ruid codec
  * exercises: whole 3-byte groups and whole 4-character groups, no `=` padding
  * and no whitespace. It stands in for the OpenBSD `b64_ntop`/`b64_pton` pair
  * that src/ruid.c only declares (src/ruid.c:25-26).
  *
  * The bit arithmetic (bytes to six-bit values and back) is kept apart from the
  * alphabet (six-bit values to characters and back).
  */
module Base64 {
  import opened Bytes
  import opened Wrappers

  /** The six bits carried by one base64 character. */
  type sextet = x: int | 0 <= x < 64

  /** The 64 characters of the standard alphabet. */
  predicate IsBase64Char(c: char) {
    'A' <= c <= 'Z' || 'a' <= c <= 'z' || '0' <= c <= '9' || c == '+' || c == '/'
  }

  /** The alphabet table: value 0..63 to its character. */
  function CharOf(v: sextet): (c: char)
    ensures IsBase64Char(c)
  {
    if v < 26 then ('A' as int + v) as char
    else if v < 52 then ('a' as int + (v - 26)) as char
    else if v < 62 then ('0' as int + (v - 52)) as char
    else if v == 62 then '+'
    else '/'
  }

  /** The inverse table: an alphabet character to its value. */
  function ValueOf(c: char): (v: sextet)
    requires IsBase64Char(c)
    ensures CharOf(v) == c
  {
    if 'A' <= c <= 'Z' then c as int - 'A' as int
    else if 'a' <= c <= 'z' then c as int - 'a' as int + 26
    else if '0' <= c <= '9' then c as int - '0' as int + 52
    else if c == '+' then 62
    else 63
  }

  /** The alphabet table is a bijection: each value has exactly one character. */
  lemma ValueOfCharOf(v: sextet)
    ensures ValueOf(CharOf(v)) == v
  {
  }

  lemma CharOfInjective(v: sextet, w: sextet)
    ensures CharOf(v) == CharOf(w) <==> v == w
  {
    ValueOfCharOf(v);
    ValueOfCharOf(w);
  }

  /** Division by the group's bit-field widths is determined by quotient and remainder. */
  lemma DivModOf(x: int, d: int, q: int, r: int)
    requires d == 4 || d == 16 || d == 64
    requires 0 <= r < d && x == q * d + r
    ensures x / d == q && x % d == r
  {
    if d == 4 {
      assert x == q * 4 + r;
    } else if d == 16 {
      assert x == q * 16 + r;
    } else {
      assert x == q * 64 + r;
    }
  }

  /** Three bytes, most significant bit first, cut into four six-bit values. */
  function SplitGroup(b0: byte, b1: byte, b2: byte): (sx: seq<sextet>)
  {
    [b0 / 4, b0 % 4 * 16 + b1 / 16, b1 % 16 * 4 + b2 / 64, b2 % 64]
  }

  /** Four six-bit values glued back into three bytes. */
  function JoinGroup(c0: sextet, c1: sextet, c2: sextet, c3: sextet): (bs: seq<byte>)
  {
    [c0 * 4 + c1 / 16, c1 % 16 * 16 + c2 / 4, c2 % 4 * 64 + c3]
  }

  lemma JoinSplit(b0: byte, b1: byte, b2: byte)
    ensures var sx := SplitGroup(b0, b1, b2);
            JoinGroup(sx[0], sx[1], sx[2], sx[3]) == [b0, b1, b2]
  {
    DivModOf(b0 % 4 * 16 + b1 / 16, 16, b0 % 4, b1 / 16);
    DivModOf(b1 % 16 * 4 + b2 / 64, 4, b1 % 16, b2 / 64);
  }

  lemma SplitJoin(c0: sextet, c1: sextet, c2: sextet, c3: sextet)
    ensures var b := JoinGroup(c0, c1, c2, c3);
            SplitGroup(b[0], b[1], b[2]) == [c0, c1, c2, c3]
  {
    var b := JoinGroup(c0, c1, c2, c3);
    DivModOf(b[0], 4, c0, c1 / 16);
    DivModOf(b[1], 16, c1 % 16, c2 / 4);
    DivModOf(b[2], 64, c2 % 4, c3);
  }

  /** The six-bit values of a byte string whose length is a multiple of 3. */
  function ToSextets(bs: seq<byte>): (sx: seq<sextet>)
    requires |bs| % 3 == 0
    ensures |sx| == |bs| / 3 * 4
    decreases |bs|
  {
    if bs == [] then []
    else SplitGroup(bs[0], bs[1], bs[2]) + ToSextets(bs[3..])
  }

  /** The bytes of a sequence of six-bit values whose length is a multiple of 4. */
  function FromSextets(sx: seq<sextet>): (bs: seq<byte>)
    requires |sx| % 4 == 0
    ensures |bs| == |sx| / 4 * 3
    decreases |sx|
  {
    if sx == [] then []
    else JoinGroup(sx[0], sx[1], sx[2], sx[3]) + FromSextets(sx[4..])
  }

  lemma {:induction false} FromToSextets(bs: seq<byte>)
    requires |bs| % 3 == 0
    ensures FromSextets(ToSextets(bs)) == bs
  {
    if bs != [] {
      var sx := ToSextets(bs);
      assert sx[..4] == SplitGroup(bs[0], bs[1], bs[2]) && sx[4..] == ToSextets(bs[3..]);
      JoinSplit(bs[0], bs[1], bs[2]);
      FromToSextets(bs[3..]);
      assert bs == [bs[0], bs[1], bs[2]] + bs[3..];
    }
  }

  lemma {:induction false} ToFromSextets(sx: seq<sextet>)
    requires |sx| % 4 == 0
    ensures ToSextets(FromSextets(sx)) == sx
  {
    if sx != [] {
      var bs := FromSextets(sx);
      var g := JoinGroup(sx[0], sx[1], sx[2], sx[3]);
      assert bs[..3] == g && bs[3..] == FromSextets(sx[4..]);
      SplitJoin(sx[0], sx[1], sx[2], sx[3]);
      ToFromSextets(sx[4..]);
      assert sx == sx[..4] + sx[4..];
    }
  }

  /** The value carried by character `j` of the encoding of `bs`: bits 6j..6j+5 of `bs`. */
  function SextetAt(bs: seq<byte>, j: nat): sextet
    requires |bs| % 3 == 0
    requires j < |bs| / 3 * 4
  {
    var k := j / 4;
    var b0, b1, b2 := bs[3 * k], bs[3 * k + 1], bs[3 * k + 2];
    if j % 4 == 0 then b0 / 4
    else if j % 4 == 1 then b0 % 4 * 16 + b1 / 16
    else if j % 4 == 2 then b1 % 16 * 4 + b2 / 64
    else b2 % 64
  }

  lemma {:induction false} ToSextetsAt(bs: seq<byte>, j: nat)
    requires |bs| % 3 == 0
    requires j < |bs| / 3 * 4
    ensures ToSextets(bs)[j] == SextetAt(bs, j)
  {
    var sx := ToSextets(bs);
    if j < 4 {
      assert sx[j] == SplitGroup(bs[0], bs[1], bs[2])[j];
    } else {
      var tail := bs[3..];
      assert sx[j] == ToSextets(tail)[j - 4];
      ToSextetsAt(tail, j - 4);
      var k := (j - 4) / 4;
      assert j / 4 == k + 1 && j % 4 == (j - 4) % 4;
      assert tail[3 * k] == bs[3 * k + 3] && tail[3 * k + 1] == bs[3 * k + 4] && tail[3 * k + 2] == bs[3 * k + 5];
    }
  }

  /** The characters of a sequence of six-bit values. */
  function CharsOf(sx: seq<sextet>): (cs: seq<char>)
    ensures |cs| == |sx|
    ensures forall i :: 0 <= i < |sx| ==> cs[i] == CharOf(sx[i])
  {
    seq(|sx|, i requires 0 <= i < |sx| => CharOf(sx[i]))
  }

  predicate AllBase64(cs: seq<char>) {
    forall i :: 0 <= i < |cs| ==> IsBase64Char(cs[i])
  }

  /** The six-bit values of a string of alphabet characters. */
  function ValuesOf(cs: seq<char>): (sx: seq<sextet>)
    requires AllBase64(cs)
    ensures |sx| == |cs|
    ensures forall i :: 0 <= i < |cs| ==> sx[i] == ValueOf(cs[i])
  {
    seq(|cs|, i requires 0 <= i < |cs| && AllBase64(cs) => ValueOf(cs[i]))
  }

  /** Encoding of a byte string whose length is a multiple of 3 (no padding). */
  function Encode(bs: seq<byte>): (cs: seq<char>)
    requires |bs| % 3 == 0
    ensures |cs| == |bs| / 3 * 4
    ensures AllBase64(cs)
  {
    CharsOf(ToSextets(bs))
  }

  /** Decoding of a string whose length is a multiple of 4; `None` when a character lies outside the alphabet. */
  function Decode(cs: seq<char>): (r: Option<seq<byte>>)
    requires |cs| % 4 == 0
    ensures r.Some? <==> AllBase64(cs)
    ensures r.Some? ==> |r.value| == |cs| / 4 * 3
  {
    if AllBase64(cs) then Some(FromSextets(ValuesOf(cs))) else None
  }

  /** Character `j` of the encoding, without unfolding the recursion. */
  lemma EncodeCharAt(bs: seq<byte>, j: nat)
    requires |bs| % 3 == 0
    requires j < |bs| / 3 * 4
    ensures Encode(bs)[j] == CharOf(SextetAt(bs, j))
  {
    ToSextetsAt(bs, j);
  }

  /** Decoding undoes encoding. */
  lemma DecodeEncode(bs: seq<byte>)
    requires |bs| % 3 == 0
    ensures Decode(Encode(bs)) == Some(bs)
  {
    var sx := ToSextets(bs);
    var cs := Encode(bs);
    var back := ValuesOf(cs);
    forall i | 0 <= i < |cs|
      ensures back[i] == sx[i]
    {
      ValueOfCharOf(sx[i]);
    }
    assert back == sx;
    FromToSextets(bs);
  }

  /** Encoding undoes decoding: on whole groups base64 is a bijection. */
  lemma EncodeDecode(cs: seq<char>)
    requires |cs| % 4 == 0
    requires Decode(cs).Some?
    ensures |Decode(cs).value| % 3 == 0
    ensures Encode(Decode(cs).value) == cs
  {
    var sx := ValuesOf(cs);
    ToFromSextets(sx);
    var e := Encode(FromSextets(sx));
    assert forall i :: 0 <= i < |cs| ==> e[i] == CharOf(sx[i]);
  }
}

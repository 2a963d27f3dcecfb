/** `urlDecode`: form decoding of a query value, in the style of
    `application/x-www-form-urlencoded` (percent escapes as in section 2.1
    of RFC 3986, `+` for space), byte by byte. */
module UrlCodec {
  import opened ByteStrings

  predicate IsHexDigit(c: Byte) {
    (48 <= c <= 57) || (65 <= c <= 70) || (97 <= c <= 102)
  }

  /** The value of a hexadecimal digit, either case. */
  function HexValue(c: Byte): (v: nat)
    requires IsHexDigit(c)
    ensures v < 16
  {
    if c <= 57 then c - 48 else if c <= 70 then c - 55 else c - 87
  }

  /** `strtol("0x" c1 c2, NULL, 16)`: the longest run of hex digits after
      the `0x` prefix; when `c1` is not a hex digit only the leading `0`
      parses. At most two digits, so the result fits in the byte that
      `char(...)` keeps. */
  function StrtolHex(c1: Byte, c2: Byte): (r: Byte)
    ensures !IsHexDigit(c1) ==> r == 0
    ensures IsHexDigit(c1) && !IsHexDigit(c2) ==> r < 16 && r == HexValue(c1)
    ensures IsHexDigit(c1) && IsHexDigit(c2) ==> r / 16 == HexValue(c1) && r % 16 == HexValue(c2)
  {
    if !IsHexDigit(c1) then 0
    else if !IsHexDigit(c2) then HexValue(c1)
    else 16 * HexValue(c1) + HexValue(c2)
  }

  /** The decoding rules, one escape or character at a time. A `%` followed
      by at least two characters consumes them; a `%` with fewer than two
      after it is dropped on its own and what follows still passes through. */
  function Decode(s: Bytes): (r: Bytes)
    ensures |r| <= |s|
  {
    if |s| == 0 then []
    else if s[0] == PERCENT then
      if |s| >= 3 then [StrtolHex(s[1], s[2])] + Decode(s[3..]) else Decode(s[1..])
    else if s[0] == PLUS then [SPACE] + Decode(s[1..])
    else [s[0]] + Decode(s[1..])
  }

  /** The decoding loop as written: an index walking the input, skipping
      the two escape characters after a complete `%XX`. */
  method UrlDecode(input: Bytes) returns (decoded: Bytes)
    ensures decoded == Decode(input)
    ensures |decoded| <= |input|
  {
    decoded := [];
    var i := 0;
    while i < |input|
      invariant 0 <= i <= |input|
      invariant decoded + Decode(input[i..]) == Decode(input)
    {
      var next := i + 1;
      var out: Bytes;
      if input[i] == PERCENT {
        if i + 2 < |input| {
          out := [StrtolHex(input[i + 1], input[i + 2])];
          next := i + 3;
        } else {
          out := [];
        }
      } else if input[i] == PLUS {
        out := [SPACE];
      } else {
        out := [input[i]];
      }
      DecodeAt(input, i);
      AppendStep(decoded, out, Decode(input[next..]));
      decoded := decoded + out;
      i := next;
    }
    assert input[i..] == [];
  }

  /** One step of `Decode` from index `i`: what position `i` contributes and
      where decoding resumes. */
  lemma DecodeAt(s: Bytes, i: nat)
    requires i < |s|
    ensures Decode(s[i..]) ==
      if s[i] == PERCENT then
        if i + 2 < |s| then [StrtolHex(s[i + 1], s[i + 2])] + Decode(s[i + 3..])
        else Decode(s[i + 1..])
      else if s[i] == PLUS then [SPACE] + Decode(s[i + 1..])
      else [s[i]] + Decode(s[i + 1..])
  {
    var rest := s[i..];
    assert rest[0] == s[i];
    if s[i] == PERCENT && i + 2 < |s| {
      assert rest[1] == s[i + 1] && rest[2] == s[i + 2];
      assert rest[3..] == s[i + 3..];
    } else {
      assert rest[1..] == s[i + 1..];
    }
  }

  lemma AppendStep(a: Bytes, b: Bytes, c: Bytes)
    ensures a + (b + c) == (a + b) + c
  {
  }

  /** Every `%` in `a` is followed by at least two more bytes of `a`. */
  predicate EscapesComplete(a: Bytes) {
    forall i :: 0 <= i < |a| ==> a[i] == PERCENT ==> i + 2 < |a|
  }

  /** The bytes the first decoding step of a non-empty `s` produces, and how
      many input bytes it consumes. */
  function StepOut(s: Bytes): Bytes
    requires |s| > 0
  {
    if s[0] == PERCENT then (if |s| >= 3 then [StrtolHex(s[1], s[2])] else [])
    else if s[0] == PLUS then [SPACE]
    else [s[0]]
  }

  function StepLen(s: Bytes): nat
    requires |s| > 0
  {
    if s[0] == PERCENT && |s| >= 3 then 3 else 1
  }

  lemma DecodeFirst(s: Bytes)
    requires |s| > 0
    ensures StepLen(s) <= |s|
    ensures Decode(s) == StepOut(s) + Decode(s[StepLen(s)..])
  {
  }

  /** The first decoding step of `a + b` lies inside `a` when `a`'s escapes
      are complete. */
  lemma ConcatFirstStep(a: Bytes, b: Bytes)
    requires EscapesComplete(a) && 0 < |a|
    ensures StepLen(a) <= |a|
    ensures StepOut(a + b) == StepOut(a) && StepLen(a + b) == StepLen(a)
    ensures (a + b)[StepLen(a)..] == a[StepLen(a)..] + b
    ensures EscapesComplete(a[StepLen(a)..])
  {
    var n := StepLen(a);
    assert (a + b)[0] == a[0];
    if a[0] == PERCENT {
      assert (a + b)[1] == a[1] && (a + b)[2] == a[2];
    }
    forall i | 0 <= i < |a[n..]| && a[n..][i] == PERCENT
      ensures i + 2 < |a[n..]|
    {
      assert a[n + i] == PERCENT;
    }
  }

  /** Decoding distributes over a split that does not cut an escape. */
  lemma {:induction false} DecodeConcat(a: Bytes, b: Bytes)
    requires EscapesComplete(a)
    ensures Decode(a + b) == Decode(a) + Decode(b)
    decreases |a|
  {
    if |a| > 0 {
      var n := StepLen(a);
      ConcatFirstStep(a, b);
      DecodeConcat(a[n..], b);
      DecodeFirst(a);
      DecodeFirst(a + b);
      AppendStep(StepOut(a), Decode(a[n..]), Decode(b));
    } else {
      assert a + b == b;
    }
  }

  /** Text with neither `%` nor `+` decodes to itself. */
  lemma {:induction false} DecodePlain(s: Bytes)
    requires NotIn(s, PERCENT) && NotIn(s, PLUS)
    ensures Decode(s) == s
  {
    if |s| > 0 {
      DecodePlain(s[1..]);
    }
  }

  /** Every complete escape of two hex digits decodes to their value, in
      either case: `%41`, `%4a` and `%4A` mean what they say. */
  lemma DecodeEscape(c1: Byte, c2: Byte, rest: Bytes)
    requires IsHexDigit(c1) && IsHexDigit(c2)
    ensures Decode([PERCENT, c1, c2] + rest) == [16 * HexValue(c1) + HexValue(c2)] + Decode(rest)
  {
    assert ([PERCENT, c1, c2] + rest)[3..] == rest;
  }

  /** A `%` with fewer than two characters after it is dropped, and those
      characters pass through decoded on their own. */
  lemma DecodeShortEscape(tail: Bytes)
    requires |tail| < 2
    ensures Decode([PERCENT] + tail) == Decode(tail)
  {
    assert ([PERCENT] + tail)[1..] == tail;
  }

  /** The upper-case hexadecimal digit for `n < 16`. */
  function HexDigit(n: nat): (c: Byte)
    requires n < 16
    ensures IsHexDigit(c) && HexValue(c) == n
  {
    if n < 10 then 48 + n else 55 + n
  }

  /** Bytes a form encoder leaves as they are. */
  predicate Unreserved(c: Byte) {
    (48 <= c <= 57) || (65 <= c <= 90) || (97 <= c <= 122)
    || c == 45 || c == 46 || c == 95 || c == 126
  }

  /** How a form encoder writes one byte of a field value. */
  function EncodeByte(c: Byte): (r: Bytes)
    ensures |r| == 1 || |r| == 3
  {
    if Unreserved(c) then [c]
    else if c == SPACE then [PLUS]
    else [PERCENT, HexDigit(c / 16), HexDigit(c % 16)]
  }

  /** The form encoding of a field value: the inverse partner of `Decode`. */
  function FormEncode(s: Bytes): (r: Bytes)
    ensures |s| <= |r| <= 3 * |s|
  {
    if s == [] then [] else EncodeByte(s[0]) + FormEncode(s[1..])
  }

  /** Decoding one encoded byte gives the byte back. */
  lemma DecodeEncodeByte(c: Byte, rest: Bytes)
    ensures Decode(EncodeByte(c) + rest) == [c] + Decode(rest)
  {
    if Unreserved(c) || c == SPACE {
      assert (EncodeByte(c) + rest)[1..] == rest;
    } else {
      DecodeEscape(HexDigit(c / 16), HexDigit(c % 16), rest);
    }
  }

  /** Form round trip: whatever the form encoder writes, `urlDecode` restores,
      byte for byte, NUL and non-ASCII bytes included. */
  lemma {:induction false} DecodeFormEncode(s: Bytes)
    ensures Decode(FormEncode(s)) == s
  {
    if s != [] {
      DecodeEncodeByte(s[0], FormEncode(s[1..]));
      DecodeFormEncode(s[1..]);
    }
  }

  // Worked examples, bytes written as their ASCII codes.

  /** `%20` is a space. */
  lemma DecodeExampleSpace()
    ensures Decode([PERCENT, 50, 48]) == [SPACE]
  {
    DecodeEscape(50, 48, []);
    assert [PERCENT, 50, 48] == [PERCENT, 50, 48] + [];
  }

  /** `a+b` is `a b`. */
  lemma DecodeExamplePlus()
    ensures Decode([97, PLUS, 98]) == [97, SPACE, 98]
  {
    var plus: Bytes := [97, PLUS, 98];
    assert plus[1..] == [PLUS, 98] && plus[1..][1..] == [98] && plus[1..][1..][1..] == [];
    assert Decode([98]) == [98];
    assert Decode([PLUS, 98]) == [SPACE, 98];
  }

  /** `100%25` is `100%`. */
  lemma DecodeExamplePercent()
    ensures Decode([49, 48, 48, PERCENT, 50, 53]) == [49, 48, 48, PERCENT]
  {
    DecodePlain([49, 48, 48]);
    DecodeConcat([49, 48, 48], [PERCENT, 50, 53]);
    DecodeEscape(50, 53, []);
    assert [PERCENT, 50, 53] == [PERCENT, 50, 53] + [];
    assert [49, 48, 48, PERCENT, 50, 53] == [49, 48, 48] + [PERCENT, 50, 53];
  }

  /** The trailing short escape `%2` loses its `%` and keeps its digit. */
  lemma DecodeExampleShort()
    ensures Decode([PERCENT, 50]) == [50]
  {
    DecodeShortEscape([50]);
    assert [PERCENT, 50] == [PERCENT] + [50];
  }

  /** `%ZZ`, with no hex digit, is byte 0. */
  lemma DecodeExampleNonHex()
    ensures Decode([PERCENT, 90, 90]) == [0]
  {
    assert [PERCENT, 90, 90][3..] == [];
  }
}

/** Byte strings as the firmware handles them: Arduino `String` contents,
    C strings and EEPROM cells are all sequences of 8-bit values. */
module ByteStrings {

  type Byte = b: int | 0 <= b < 256
  type Bytes = seq<Byte>

  datatype Option<+T> = None | Some(value: T)

  const NUL: Byte := 0
  const SPACE: Byte := 32
  const PERCENT: Byte := 37
  const AMPERSAND: Byte := 38
  const PLUS: Byte := 43
  const SLASH: Byte := 47
  const EQUALS: Byte := 61
  const QUESTION: Byte := 63
  const LOWER_P: Byte := 112
  const LOWER_S: Byte := 115

  /** No NUL byte occurs: the whole sequence survives a trip through a C string. */
  predicate NoNul(s: Bytes) {
    forall i :: 0 <= i < |s| ==> s[i] != NUL
  }

  predicate NotIn(s: Bytes, c: Byte) {
    forall i :: 0 <= i < |s| ==> s[i] != c
  }

  /** Arduino `String::indexOf(c, from)`, a `strchr` from position `from`:
      the first position at or after `from` that holds `c` with no NUL
      before it, or -1. The search byte is never NUL here. */
  function IndexOf(s: Bytes, c: Byte, from: nat): (r: int)
    requires c != NUL
    ensures r == -1 || (from <= r < |s| && s[r] == c)
    ensures r != -1 ==> forall j :: from <= j < r ==> s[j] != c && s[j] != NUL
    decreases |s| - from
  {
    if from >= |s| then -1
    else if s[from] == c then from
    else if s[from] == NUL then -1
    else IndexOf(s, c, from + 1)
  }

  /** The search fails exactly when `c` is missing from the C-string view
      of the text from `from` on: a NUL ends the search. */
  lemma {:induction false} IndexOfMissing(s: Bytes, c: Byte, from: nat)
    requires c != NUL && from <= |s|
    ensures IndexOf(s, c, from) == -1 <==> NotIn(CString(s[from..]), c)
    decreases |s| - from
  {
    if from < |s| {
      var t := s[from..];
      if s[from] == c {
        assert t[0] == c && CString(t)[0] == c;
      } else if s[from] != NUL {
        assert t[1..] == s[from + 1..];
        NotInCons(s[from], CString(s[from + 1..]), c);
        IndexOfMissing(s, c, from + 1);
      }
    }
  }

  lemma NotInCons(x: Byte, rest: Bytes, c: Byte)
    ensures NotIn([x] + rest, c) <==> x != c && NotIn(rest, c)
  {
    if NotIn([x] + rest, c) {
      forall i | 0 <= i < |rest|
        ensures rest[i] != c
      {
        assert ([x] + rest)[i + 1] == rest[i];
      }
      assert ([x] + rest)[0] == x;
    } else if x != c && NotIn(rest, c) {
      forall i | 0 <= i < |[x] + rest|
        ensures ([x] + rest)[i] != c
      {
        if i > 0 {
          assert ([x] + rest)[i] == rest[i - 1];
        }
      }
    }
  }

  /** The C-string view of a byte buffer: everything before the first NUL. */
  function CString(s: Bytes): (r: Bytes)
    ensures NoNul(r)
    ensures |r| <= |s|
    ensures |r| < |s| ==> s[|r|] == NUL
  {
    if s == [] || s[0] == NUL then [] else [s[0]] + CString(s[1..])
  }

  /** The C-string view is a prefix of the buffer, so together with the
      terminator fact it is exactly the bytes before the first NUL. */
  lemma {:induction false} CStringIsPrefix(s: Bytes)
    ensures CString(s) <= s
  {
    if s != [] && s[0] != NUL {
      CStringIsPrefix(s[1..]);
    }
  }

  /** A buffer with no NUL is its own C string. */
  lemma {:induction false} CStringOfNoNul(s: Bytes)
    requires NoNul(s)
    ensures CString(s) == s
  {
    if s != [] {
      CStringOfNoNul(s[1..]);
    }
  }

  /** Past a NUL-free prefix ending at `k`, the C-string view goes on with
      the C-string view of the rest. */
  lemma {:induction false} CStringAfter(s: Bytes, k: nat)
    requires k < |s| && NoNul(s[..k + 1])
    ensures CString(s) == s[..k + 1] + CString(s[k + 1..])
    decreases k
  {
    assert s[..k + 1][0] == s[0];
    if k > 0 {
      var t := s[1..];
      assert t[..k] == s[1..k + 1];
      assert forall i :: 0 <= i < k ==> t[..k][i] == s[..k + 1][i + 1];
      CStringAfter(t, k - 1);
      assert t[k..] == s[k + 1..];
      assert s[..k + 1] == [s[0]] + t[..k];
    }
  }

  /** A prefix whose bytes are all non-zero is NUL-free. */
  lemma PrefixNoNul(s: Bytes, n: nat)
    requires n <= |s|
    requires forall j :: 0 <= j < n ==> s[j] != NUL
    ensures NoNul(s[..n])
  {
    forall k | 0 <= k < n
      ensures s[..n][k] != NUL
    {
      assert s[..n][k] == s[k];
    }
  }

  function Min(a: int, b: int): int {
    if a <= b then a else b
  }
}

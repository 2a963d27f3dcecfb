/** `WiFiManagerParameter`: one named, length-bounded configuration field. */
module Parameters {
  import opened ByteStrings

  /** `length` is the field's buffer size in bytes, terminator included; it is
      also the size of the field's EEPROM slot. */
  datatype Parameter = Parameter(
    id: Bytes,
    name: Bytes,
    defaultValue: Bytes,
    length: int,
    value: Bytes)

  /** What every parameter in a registry satisfies: a usable buffer, and a
      value that fits in it as a C string. */
  predicate Valid(p: Parameter) {
    && p.length >= 1
    && |p.value| < p.length
    && NoNul(p.value)
  }

  /** The four-argument constructor. The buffer starts empty here; the C++
      leaves it uninitialised until the first load. */
  function NewParameter(id: Bytes, name: Bytes, defaultValue: Bytes, length: int): (p: Parameter)
    requires length >= 1
    ensures Valid(p)
    ensures p.id == id && p.name == name && p.defaultValue == defaultValue
    ensures p.length == length
    ensures p.value == []
  {
    Parameter(id, name, defaultValue, length, [])
  }

  /** The bytes `strlcpy(dst, src, size)` leaves in `dst`, read as a C string. */
  function StrlCopy(src: Bytes, size: int): (r: Bytes)
    requires size >= 1
    ensures NoNul(r) && |r| <= size - 1
    ensures r <= src
    ensures |r| < size - 1 ==> |r| == |src| || src[|r|] == NUL
  {
    var c := CString(src);
    CStringIsPrefix(src);
    if |c| < size then c else c[..size - 1]
  }

  /** `setValue`: copies `v` into the buffer as `strlcpy` does. Only the
      value changes, and it always fits with its terminator. */
  function SetValue(p: Parameter, v: Bytes): (q: Parameter)
    requires p.length >= 1
    ensures q.id == p.id && q.name == p.name
    ensures q.defaultValue == p.defaultValue && q.length == p.length
  {
    p.(value := StrlCopy(v, p.length))
  }

  /** Whatever it is given, `setValue` leaves a value that fits the buffer
      with its terminator and holds no NUL. */
  lemma SetValueFits(p: Parameter, v: Bytes)
    requires p.length >= 1
    ensures Valid(SetValue(p, v))
    ensures |SetValue(p, v).value| <= p.length - 1
  {
  }

  /** The stored value is the longest NUL-free prefix of `v` that fits:
      copying stops at the buffer's last byte, at a NUL, or at the end. */
  lemma SetValueKeepsLongestFit(p: Parameter, v: Bytes)
    requires p.length >= 1
    ensures SetValue(p, v).value <= v
    ensures var n := |SetValue(p, v).value|;
      n == p.length - 1 || n == |v| || v[n] == NUL
  {
    CStringIsPrefix(v);
  }

  /** A NUL-free input that already fits is stored exactly. */
  lemma SetValueStoresFittingInput(p: Parameter, v: Bytes)
    requires p.length >= 1
    requires |v| < p.length && NoNul(v)
    ensures SetValue(p, v).value == v
  {
    CStringOfNoNul(v);
  }

  /** `setValue(getValue())` changes nothing. */
  lemma SetValueOwnValue(p: Parameter)
    requires Valid(p)
    ensures SetValue(p, p.value) == p
  {
    SetValueStoresFittingInput(p, p.value);
  }

  /** Setting the stored value again is idempotent. */
  lemma SetValueIdempotent(p: Parameter, v: Bytes)
    requires p.length >= 1
    ensures SetValue(SetValue(p, v), SetValue(p, v).value) == SetValue(p, v)
  {
    SetValueFits(p, v);
    SetValueOwnValue(SetValue(p, v));
  }

  /** A later `setValue` wins outright: the earlier value leaves no trace. */
  lemma SetValueOverwrites(p: Parameter, v1: Bytes, v2: Bytes)
    requires p.length >= 1
    ensures SetValue(SetValue(p, v1), v2) == SetValue(p, v2)
  {
  }
}

/** The EEPROM slot codec: `getEEPROMString` and `setEEPROMString`.

    A slot of `len` bytes at `at` is laid out as
      [marker][payload ...][0 terminator][stale bytes]
    where marker 0 means "written" and anything else (erased flash reads
    0xFF) means "never written". */
module EepromSlots {
  import opened ByteStrings

  /** The emulated EEPROM buffer and the number of `EEPROM.commit()` calls
      issued so far. */
  datatype Eeprom = Eeprom(data: seq<Byte>, commits: nat)

  /** `EEPROM.write`: the ESP8266 EEPROM class drops writes outside its
      buffer, which matters only for the terminator overrun of a slot that
      ends exactly at the end of the buffer. */
  function Poke(data: seq<Byte>, addr: int, b: Byte): (r: seq<Byte>)
    ensures |r| == |data|
    ensures forall j {:trigger r[j]} :: 0 <= j < |data| ==> r[j] == (if j == addr then b else data[j])
  {
    if 0 <= addr < |data| then data[addr := b] else data
  }

  /** The slot lies inside the buffer and has room for its marker. */
  predicate SlotFits(data: seq<Byte>, at: int, len: int) {
    0 <= at && len >= 1 && at + len <= |data|
  }

  /** The read loop from address `i`: bytes up to the first 0 or up to `end`. */
  function ReadFrom(data: seq<Byte>, i: int, end: int): (r: Bytes)
    requires 0 <= i <= end <= |data|
    ensures i + |r| <= end
    ensures NoNul(r)
    ensures i + |r| == end || data[i + |r|] == NUL
    decreases end - i
  {
    if i == end || data[i] == NUL then [] else [data[i]] + ReadFrom(data, i + 1, end)
  }

  /** The read loop copies the bytes it passes. */
  lemma {:induction false} ReadFromContents(data: seq<Byte>, i: int, end: int)
    requires 0 <= i <= end <= |data|
    ensures forall k :: 0 <= k < |ReadFrom(data, i, end)| ==> ReadFrom(data, i, end)[k] == data[i + k]
    decreases end - i
  {
    if i < end && data[i] != NUL {
      var r, rest := ReadFrom(data, i, end), ReadFrom(data, i + 1, end);
      ReadFromContents(data, i + 1, end);
      assert r == [data[i]] + rest;
      forall k | 1 <= k < |r|
        ensures r[k] == data[i + k]
      {
        assert r[k] == rest[k - 1] == data[i + 1 + (k - 1)];
      }
    }
  }

  /** `getEEPROMString(start, len)`: a slot whose marker is not 0 reads as
      empty whatever its payload holds. */
  function ReadSlot(data: seq<Byte>, at: int, len: int): (r: Bytes)
    requires SlotFits(data, at, len)
    ensures NoNul(r) && |r| < len
  {
    if data[at] != NUL then [] else ReadFrom(data, at + 1, at + len)
  }

  /** A slot whose marker is not 0 reads as empty, whatever its payload. */
  lemma ReadSlotUnwritten(data: seq<Byte>, at: int, len: int)
    requires SlotFits(data, at, len) && data[at] != NUL
    ensures ReadSlot(data, at, len) == []
  {
  }

  /** A written slot reads as its payload bytes up to the first 0, and at
      most `len - 1` of them. */
  lemma ReadSlotWritten(data: seq<Byte>, at: int, len: int)
    requires SlotFits(data, at, len)
    requires data[at] == NUL
    ensures forall k :: 0 <= k < |ReadSlot(data, at, len)| ==> ReadSlot(data, at, len)[k] == data[at + 1 + k]
    ensures |ReadSlot(data, at, len)| == len - 1 || data[at + 1 + |ReadSlot(data, at, len)|] == NUL
  {
    ReadFromContents(data, at + 1, at + len);
  }

  /** The byte a slot write leaves at address `j`, where `b` was before:
      the marker, then the first `len - 1` bytes of the value, then (when
      the value fits) a terminator; an empty value in a slot of two or more
      bytes gets a 0 at both payload positions 1 and 2. */
  function SlotByte(j: int, b: Byte, at: int, len: int, v: Bytes): Byte {
    var k := j - at - 1;
    if j == at then NUL
    else if 0 <= k < len - 1 && k < |v| then v[k]
    else if len >= 2 && |v| <= len - 1 && (k == |v| || (|v| == 0 && k == 1)) then NUL
    else b
  }

  /** `setEEPROMString(start, len, v)` as the bytes it leaves behind, plus
      its one commit. It changes nothing outside `[at, at + len]`: one byte
      past the slot may be written (see `WriteSlotLayout`). */
  function WriteSlot(mem: Eeprom, at: int, len: int, v: Bytes): (r: Eeprom)
    requires SlotFits(mem.data, at, len)
    ensures |r.data| == |mem.data|
    ensures r.commits == mem.commits + 1
    ensures r.data[at] == NUL
    ensures forall j {:trigger r.data[j]} :: 0 <= j < |mem.data| && (j < at || j > at + len) ==> r.data[j] == mem.data[j]
  {
    var d := seq(|mem.data|, j requires 0 <= j < |mem.data| => SlotByte(j, mem.data[j], at, len, v));
    Eeprom(d, mem.commits + 1)
  }

  /** Whether a slot write of `v` zeroes the byte just past the slot: the
      terminator of a value that fills the payload, or the second zero
      written for an empty value in a two-byte slot. */
  predicate Overruns(len: int, v: Bytes) {
    len >= 2 && (|v| == len - 1 || (|v| == 0 && len == 2))
  }

  /** The byte just past the slot is zeroed by a write that overruns and
      kept by any other. */
  lemma WriteSlotPast(mem: Eeprom, at: int, len: int, v: Bytes)
    requires SlotFits(mem.data, at, len) && at + len < |mem.data|
    ensures WriteSlot(mem, at, len, v).data[at + len] ==
      (if Overruns(len, v) then NUL else mem.data[at + len])
  {
    WriteSlotLayout(mem, at, len, v);
  }

  /** What a slot write leaves in and just after the slot. */
  lemma WriteSlotLayout(mem: Eeprom, at: int, len: int, v: Bytes)
    requires SlotFits(mem.data, at, len)
    ensures var d := WriteSlot(mem, at, len, v).data;
      // the payload is the first `min(|v|, len - 1)` bytes of the value
      && (forall k :: 0 <= k < Min(|v|, len - 1) ==> d[at + 1 + k] == v[k])
      // a value that fits is followed by its terminator
      && (2 <= len && |v| < len && at + 1 + |v| < |d| ==> d[at + 1 + |v|] == NUL)
      // the byte just past the slot is zeroed exactly when the value fills
      // the payload (or is empty in a two-byte slot), and otherwise kept
      && (at + len < |d| ==>
           d[at + len] ==
             (if Overruns(len, v) then NUL else mem.data[at + len]))
      // bytes after the terminator keep their stale contents
      && (forall j {:trigger d[j]} :: 0 <= j < |d| && j > at + 1 + |v| && j > at + 2 ==> d[j] == mem.data[j])
  {
  }

  /** The last address the write loop starting at `i` touches, when `m`
      bytes of the value remain to be written. */
  function Reach(i: int, end: int, m: int): int {
    if end <= i then i - 1
    else if m > end - i then end - 1
    else if m == 0 then i + 1
    else i + m
  }

  /** The write loop of `setEEPROMString` from address `i`, with `si` bytes of
      `v` already written. Each step writes one byte (a value byte, or 0 once
      the value is exhausted); as soon as the value is exhausted it also writes
      a 0 at the next address and stops. */
  function WriteFrom(data: seq<Byte>, i: int, end: int, v: Bytes, si: nat): (r: seq<Byte>)
    requires 0 <= i
    requires si < |v| || si == 0
    ensures |r| == |data|
    ensures forall j {:trigger r[j]} :: 0 <= j < |data| && (j < i || j > Reach(i, end, |v| - si)) ==> r[j] == data[j]
    ensures forall j :: i <= j < end && j < |data| && j - i + si < |v| ==> r[j] == v[j - i + si]
    ensures i < end && |v| - si <= end - i && i + |v| - si < |data| ==> r[i + |v| - si] == NUL
    ensures i < end && |v| == 0 && i + 1 < |data| ==> r[i + 1] == NUL
    decreases end - i
  {
    if i >= end then data
    else
      var c := if si < |v| then v[si] else NUL;
      var si' := if si < |v| then si + 1 else si;
      var d := Poke(data, i, c);
      if si' >= |v| then Poke(d, i + 1, NUL)
      else WriteFrom(d, i + 1, end, v, si')
  }

  /** The statement-by-statement `setEEPROMString`: write the marker, run
      the loop from the first payload address to the end of the slot. */
  function WriteSlotLoop(data: seq<Byte>, at: int, len: int, v: Bytes): (r: seq<Byte>)
    requires SlotFits(data, at, len)
    ensures |r| == |data| && r[at] == NUL
    ensures forall k :: 0 <= k < Min(|v|, len - 1) ==> r[at + 1 + k] == v[k]
    ensures forall j {:trigger r[j]} :: 0 <= j < |data| && (j < at || j > at + len) ==> r[j] == data[j]
  {
    WriteFrom(Poke(data, at, NUL), at + 1, at + len, v, 0)
  }

  /** The loop leaves exactly the bytes `WriteSlot` describes. */
  lemma WriteSlotIsLoop(mem: Eeprom, at: int, len: int, v: Bytes)
    requires SlotFits(mem.data, at, len)
    ensures WriteSlot(mem, at, len, v).data == WriteSlotLoop(mem.data, at, len, v)
  {
    var d := WriteSlot(mem, at, len, v).data;
    var l := WriteSlotLoop(mem.data, at, len, v);
    forall j | 0 <= j < |d|
      ensures d[j] == l[j]
    {
    }
  }

  /** A slot read depends only on the slot's own bytes. */
  lemma {:induction false} ReadFromLocal(d1: seq<Byte>, d2: seq<Byte>, i: int, end: int)
    requires 0 <= i <= end <= |d1| && end <= |d2|
    requires forall j :: i <= j < end ==> d1[j] == d2[j]
    ensures ReadFrom(d1, i, end) == ReadFrom(d2, i, end)
    decreases end - i
  {
    if i < end && d1[i] != NUL {
      ReadFromLocal(d1, d2, i + 1, end);
    }
  }

  lemma ReadSlotLocal(d1: seq<Byte>, d2: seq<Byte>, at: int, len: int)
    requires SlotFits(d1, at, len) && SlotFits(d2, at, len)
    requires forall j :: at <= j < at + len ==> d1[j] == d2[j]
    ensures ReadSlot(d1, at, len) == ReadSlot(d2, at, len)
  {

    assert d1[at] == d2[at];
    if d1[at] == NUL {
      ReadFromLocal(d1, d2, at + 1, at + len);
      assert ReadSlot(d1, at, len) == ReadFrom(d1, at + 1, at + len);
      assert ReadSlot(d2, at, len) == ReadFrom(d2, at + 1, at + len);
    }
  }

  /** The read loop returns exactly the NUL-free run that starts at `i` and
      ends at a 0 byte or at `end`. */
  lemma {:induction false} ReadFromRun(data: seq<Byte>, i: int, q: int, end: int)
    requires 0 <= i <= q <= end <= |data|
    requires forall j :: i <= j < q ==> data[j] != NUL
    requires q == end || data[q] == NUL
    ensures ReadFrom(data, i, end) == data[i..q]
    decreases q - i
  {
    if i < q {
      ReadFromRun(data, i + 1, q, end);
    }
  }

  /** The payload a slot write leaves: the value cut to `len - 1` bytes,
      followed by a 0 unless it fills the payload. */
  lemma WrittenPayload(mem: Eeprom, at: int, len: int, v: Bytes)
    requires SlotFits(mem.data, at, len)
    ensures var d := WriteSlot(mem, at, len, v).data;
      var m := Min(|v|, len - 1);
      && d[at + 1..at + 1 + m] == v[..m]
      && (at + 1 + m == at + len || d[at + 1 + m] == NUL)
  {
    var d := WriteSlot(mem, at, len, v).data;
    var m := Min(|v|, len - 1);
    assert forall k :: 0 <= k < m ==> d[at + 1..at + 1 + m][k] == d[at + 1 + k] == v[k];
  }

  /** A slot whose marker is 0 and whose payload starts with the NUL-free
      bytes `w`, ended by a 0 or by the slot's end, reads as `w`. */
  lemma ReadSlotOfPayload(d: seq<Byte>, at: int, len: int, w: Bytes)
    requires SlotFits(d, at, len) && d[at] == NUL
    requires NoNul(w) && |w| < len && d[at + 1..at + 1 + |w|] == w
    requires at + 1 + |w| == at + len || d[at + 1 + |w|] == NUL
    ensures ReadSlot(d, at, len) == w
  {
    var q := at + 1 + |w|;
    forall j | at + 1 <= j < q
      ensures d[j] != NUL
    {
      assert d[j] == d[at + 1..q][j - at - 1];
    }
    ReadFromRun(d, at + 1, q, at + len);
  }

  /** Slot round trip: a NUL-free value reads back truncated to `len - 1`
      bytes, whatever the slot held before. */
  lemma SlotRoundTrip(mem: Eeprom, at: int, len: int, v: Bytes)
    requires SlotFits(mem.data, at, len)
    requires NoNul(v)
    ensures ReadSlot(WriteSlot(mem, at, len, v).data, at, len) == v[..Min(|v|, len - 1)]
  {
    var m := Min(|v|, len - 1);
    WrittenPayload(mem, at, len, v);
    assert NoNul(v[..m]);
    ReadSlotOfPayload(WriteSlot(mem, at, len, v).data, at, len, v[..m]);
  }

  /** A NUL-free value that fits the payload reads back exactly. */
  lemma SlotRoundTripFits(mem: Eeprom, at: int, len: int, v: Bytes)
    requires SlotFits(mem.data, at, len)
    requires NoNul(v) && |v| < len
    ensures ReadSlot(WriteSlot(mem, at, len, v).data, at, len) == v
  {
    SlotRoundTrip(mem, at, len, v);
    assert v[..Min(|v|, len - 1)] == v;
  }
}

/** The parameter registry of `WiFiManager`: registration, and the
    whole-registry load from and save to EEPROM slots laid out back to back
    in registration order. */
module Registry {
  import opened ByteStrings
  import opened Parameters
  import opened EepromSlots

  /** Capacity of the registry. */
  const MAX_PARAMS := 50

  /** The manager's state that the core uses: the access point name, the
      EEPROM base offset set by `begin`, and the registered parameters (the
      count `_paramsCount` is `|params|`). */
  datatype Manager = Manager(apName: Bytes, eepromStart: int, params: seq<Parameter>)

  /** Within capacity, and every parameter well formed. */
  predicate Valid(m: Manager) {
    && |m.params| <= MAX_PARAMS
    && forall i :: 0 <= i < |m.params| ==> Parameters.Valid(m.params[i])
  }

  /** The two reserved fields: network name (id "s", 32 bytes) and
      passphrase (id "p", 64 bytes). */
  const SSID_ID: Bytes := [LOWER_S]
  const PASSWORD_ID: Bytes := [LOWER_P]

  /** Their labels, "SSID" and "Password", as ASCII bytes. */
  const SSID_LABEL: Bytes := [83, 83, 73, 68]
  const PASSWORD_LABEL: Bytes := [80, 97, 115, 115, 119, 111, 114, 100]

  function SsidParameter(): Parameter {
    NewParameter(SSID_ID, SSID_LABEL, [], 32)
  }

  function PasswordParameter(): Parameter {
    NewParameter(PASSWORD_ID, PASSWORD_LABEL, [], 64)
  }

  /** The reserved fields sit first in the registry, as the constructor
      registers them. */
  predicate HasReserved(m: Manager) {
    && |m.params| >= 2
    && m.params[0].id == SSID_ID && m.params[0].length == 32
    && m.params[1].id == PASSWORD_ID && m.params[1].length == 64
  }

  /** `addParameter`: append while capacity remains, otherwise ignore. */
  function AddParameter(m: Manager, p: Parameter): (r: Manager)
    ensures r.apName == m.apName && r.eepromStart == m.eepromStart
    ensures |m.params| < MAX_PARAMS ==>
      && |r.params| == |m.params| + 1
      && r.params[|m.params|] == p
      && r.params[..|m.params|] == m.params
    ensures |m.params| >= MAX_PARAMS ==> r == m
  {
    if |m.params| < MAX_PARAMS then m.(params := m.params + [p]) else m
  }

  /** `WiFiManager(apName)`: an empty registry (count 0) with the two
      reserved fields added. */
  function NewManager(apName: Bytes): (m: Manager)
    ensures Valid(m) && HasReserved(m)
    ensures m.apName == apName
    ensures m.params == [SsidParameter(), PasswordParameter()]
  {
    var empty := Manager(apName, 0, []);
    var m := AddParameter(AddParameter(empty, SsidParameter()), PasswordParameter());
    assert m.params == [SsidParameter()] + [PasswordParameter()];
    m
  }

  /** Registering never breaks the registry invariant, so the count stays
      at most `MAX_PARAMS`. */
  lemma AddParameterKeepsValid(m: Manager, p: Parameter)
    requires Valid(m) && Parameters.Valid(p)
    ensures Valid(AddParameter(m, p))
    ensures |AddParameter(m, p).params| <= MAX_PARAMS
    ensures HasReserved(m) ==> HasReserved(AddParameter(m, p))
  {
    var r := AddParameter(m, p);
    if |m.params| < MAX_PARAMS {
      forall i | 0 <= i < |r.params|
        ensures Parameters.Valid(r.params[i])
      {
        if i < |m.params| {
          assert r.params[i] == r.params[..|m.params|][i] == m.params[i];
        }
      }
      if HasReserved(m) {
        assert r.params[0] == m.params[0] && r.params[1] == m.params[1];
      }
    }
  }

  /** Where parameter `i`'s slot starts, relative to the EEPROM base: the
      sum of the lengths of the parameters registered before it. */
  function Offset(ps: seq<Parameter>, i: nat): int
    requires i <= |ps|
  {
    if i == 0 then 0 else Offset(ps, i - 1) + ps[i - 1].length
  }

  /** Size of the whole registry's region. */
  function TotalLength(ps: seq<Parameter>): int {
    Offset(ps, |ps|)
  }

  predicate AllUsable(ps: seq<Parameter>) {
    forall i :: 0 <= i < |ps| ==> ps[i].length >= 1
  }

  predicate AllValid(ps: seq<Parameter>) {
    forall i :: 0 <= i < |ps| ==> Parameters.Valid(ps[i])
  }

  /** Every slot of the registry lies inside the EEPROM buffer. */
  predicate RegionFits(data: seq<Byte>, base: int, ps: seq<Parameter>) {
    0 <= base && AllUsable(ps) && base + TotalLength(ps) <= |data|
  }

  lemma {:induction false} OffsetNonNegative(ps: seq<Parameter>, i: nat)
    requires AllUsable(ps) && i <= |ps|
    ensures 0 <= Offset(ps, i)
  {
    if i > 0 {
      OffsetNonNegative(ps, i - 1);
    }
  }

  /** Offsets grow by at least one per slot, since every slot holds at
      least its marker. */
  lemma {:induction false} OffsetMonotone(ps: seq<Parameter>, i: nat, j: nat)
    requires AllUsable(ps) && i <= j <= |ps|
    ensures 0 <= Offset(ps, i) && Offset(ps, i) + (j - i) <= Offset(ps, j)
    decreases j
  {
    if i < j {
      OffsetMonotone(ps, i, j - 1);
    } else {
      OffsetNonNegative(ps, i);
    }
  }

  /** Slots do not overlap: slot `i` ends no later than a later slot `j`
      starts. */
  lemma {:induction false} SlotsDisjoint(ps: seq<Parameter>, i: nat, j: nat)
    requires AllUsable(ps) && i < j <= |ps|
    ensures Offset(ps, i) + ps[i].length <= Offset(ps, j)
    decreases j
  {
    if i < j - 1 {
      SlotsDisjoint(ps, i, j - 1);
    }
  }

  /** Slot `i` lies inside the registry's region. */
  lemma SlotInRegion(ps: seq<Parameter>, i: nat)
    requires AllUsable(ps) && i < |ps|
    ensures 0 <= Offset(ps, i)
    ensures Offset(ps, i) + ps[i].length <= TotalLength(ps)
  {
    OffsetMonotone(ps, i, i);
    OffsetMonotone(ps, i + 1, |ps|);
  }

  /** What slot `i` of the registry holds. */
  function SlotContent(data: seq<Byte>, base: int, ps: seq<Parameter>, i: nat): Bytes
    requires RegionFits(data, base, ps) && i < |ps|
  {
    SlotInRegion(ps, i);
    ReadSlot(data, base + Offset(ps, i), ps[i].length)
  }

  /** The slot offsets the `loadParameters` loop visits from parameter `i`
      on, starting at `pos` and advancing by each parameter's length. */
  function SlotStarts(ps: seq<Parameter>, i: nat, pos: int): (r: seq<int>)
    requires i <= |ps|
    ensures |r| == |ps| - i
    decreases |ps| - i
  {
    if i == |ps| then [] else [pos] + SlotStarts(ps, i + 1, pos + ps[i].length)
  }

  /** The running offset reaches parameter `k` at `Offset(ps, k)`. */
  lemma {:induction false} SlotStartsAt(ps: seq<Parameter>, i: nat, pos: int, k: nat)
    requires i <= k < |ps| && pos == Offset(ps, i)
    ensures SlotStarts(ps, i, pos)[k - i] == Offset(ps, k)
    decreases k - i
  {
    var rest := SlotStarts(ps, i + 1, pos + ps[i].length);
    assert SlotStarts(ps, i, pos) == [pos] + rest;
    if i < k {
      SlotStartsAt(ps, i + 1, pos + ps[i].length, k);
      assert ([pos] + rest)[k - i] == rest[k - (i + 1)];
    }
  }

  /** Every offset the loop visits starts a slot inside the region. */
  lemma SlotStartsFit(data: seq<Byte>, base: int, ps: seq<Parameter>)
    requires RegionFits(data, base, ps)
    ensures forall k :: 0 <= k < |ps| ==>
      && SlotStarts(ps, 0, 0)[k] == Offset(ps, k)
      && SlotFits(data, base + SlotStarts(ps, 0, 0)[k], ps[k].length)
  {
    forall k | 0 <= k < |ps|
      ensures SlotStarts(ps, 0, 0)[k] == Offset(ps, k)
      ensures SlotFits(data, base + SlotStarts(ps, 0, 0)[k], ps[k].length)
    {
      SlotStartFits(data, base, ps, k);
    }
  }

  lemma SlotStartFits(data: seq<Byte>, base: int, ps: seq<Parameter>, k: nat)
    requires RegionFits(data, base, ps) && k < |ps|
    ensures SlotStarts(ps, 0, 0)[k] == Offset(ps, k)
    ensures SlotFits(data, base + Offset(ps, k), ps[k].length)
  {
    SlotStartsAt(ps, 0, 0, k);
    SlotInRegion(ps, k);
  }

  /** `loadParameters`: each parameter's value is set from the slot at the
      loop's running offset. */
  function LoadParameters(m: Manager, data: seq<Byte>): (r: Manager)
    requires RegionFits(data, m.eepromStart, m.params)
    ensures r.apName == m.apName && r.eepromStart == m.eepromStart
    ensures |r.params| == |m.params|
  {
    var ps := m.params;
    var starts := SlotStarts(ps, 0, 0);
    SlotStartsFit(data, m.eepromStart, ps);
    m.(params := seq(|ps|, k requires 0 <= k < |ps| =>
      SetValue(ps[k], ReadSlot(data, m.eepromStart + starts[k], ps[k].length))))
  }

  /** Loading replaces parameter `k`'s value by what slot `k` holds, and
      changes nothing else about it. */
  lemma LoadParametersAt(m: Manager, data: seq<Byte>, k: nat)
    requires RegionFits(data, m.eepromStart, m.params) && k < |m.params|
    ensures LoadParameters(m, data).params[k] ==
      SetValue(m.params[k], SlotContent(data, m.eepromStart, m.params, k))
  {
    SlotStartsAt(m.params, 0, 0, k);
  }

  /** The `saveParameters` loop from parameter `i`, whose slot is at `pos`:
      one slot write, and so one commit, per parameter. */
  function SaveFrom(mem: Eeprom, base: int, ps: seq<Parameter>, i: nat, pos: int): (r: Eeprom)
    requires RegionFits(mem.data, base, ps) && i <= |ps| && pos == Offset(ps, i)
    ensures |r.data| == |mem.data|
    ensures r.commits == mem.commits + (|ps| - i)
    decreases |ps| - i
  {
    if i == |ps| then mem
    else
      SlotInRegion(ps, i);
      OffsetMonotone(ps, i + 1, |ps|);
      var mem1 := WriteSlot(mem, base + pos, ps[i].length, ps[i].value);
      SaveFrom(mem1, base, ps, i + 1, pos + ps[i].length)
  }

  /** One iteration of the save loop: write slot `i`, move on to `i + 1`. */
  lemma SaveFromStep(mem: Eeprom, base: int, ps: seq<Parameter>, i: nat, pos: int)
    requires RegionFits(mem.data, base, ps) && i < |ps| && pos == Offset(ps, i)
    ensures SlotFits(mem.data, base + pos, ps[i].length)
    ensures pos + ps[i].length == Offset(ps, i + 1)
    ensures pos + ps[i].length <= TotalLength(ps)
    ensures SaveFrom(mem, base, ps, i, pos) ==
      SaveFrom(WriteSlot(mem, base + pos, ps[i].length, ps[i].value), base, ps, i + 1, pos + ps[i].length)
  {
    SlotInRegion(ps, i);
    OffsetMonotone(ps, i + 1, |ps|);
  }

  /** The save loop from slot `i` on changes no byte before that slot and
      none after the byte that follows the registry's region. */
  lemma {:induction false} SaveFromFrame(mem: Eeprom, base: int, ps: seq<Parameter>, i: nat, pos: int)
    requires RegionFits(mem.data, base, ps) && i <= |ps| && pos == Offset(ps, i)
    ensures forall j {:trigger SaveFrom(mem, base, ps, i, pos).data[j]} :: 0 <= j < |mem.data| && (j < base + pos || j > base + TotalLength(ps)) ==>
      SaveFrom(mem, base, ps, i, pos).data[j] == mem.data[j]
    decreases |ps| - i
  {
    if i < |ps| {
      SaveFromStep(mem, base, ps, i, pos);
      var mem1 := WriteSlot(mem, base + pos, ps[i].length, ps[i].value);
      SaveFromFrame(mem1, base, ps, i + 1, pos + ps[i].length);
    }
  }

  /** The fields written after a slot leave that slot's content as it was. */
  lemma SaveFromKeepsEarlierSlot(mem: Eeprom, base: int, ps: seq<Parameter>, i: nat, pos: int, at: int, len: int, v: Bytes)
    requires RegionFits(mem.data, base, ps) && i <= |ps| && pos == Offset(ps, i)
    requires SlotFits(mem.data, at, len) && at + len <= base + pos
    requires ReadSlot(mem.data, at, len) == v
    ensures SlotFits(SaveFrom(mem, base, ps, i, pos).data, at, len)
    ensures ReadSlot(SaveFrom(mem, base, ps, i, pos).data, at, len) == v
  {
    SaveFromFrame(mem, base, ps, i, pos);
    ReadSlotLocal(mem.data, SaveFrom(mem, base, ps, i, pos).data, at, len);
  }

  /** `saveParameters`: writes every slot, committing once per field, and
      touches no byte outside the registry's region except the one right
      after it (see `SaveOverrunsRegion`). */
  function SaveParameters(m: Manager, mem: Eeprom): (r: Eeprom)
    requires RegionFits(mem.data, m.eepromStart, m.params)
    ensures |r.data| == |mem.data|
    ensures r.commits == mem.commits + |m.params|
    ensures forall j {:trigger r.data[j]} ::
      (0 <= j < |mem.data| && (j < m.eepromStart || j > m.eepromStart + TotalLength(m.params))) ==>
      r.data[j] == mem.data[j]
  {
    SaveFromFrame(mem, m.eepromStart, m.params, 0, 0);
    SaveFrom(mem, m.eepromStart, m.params, 0, 0)
  }

  /** The byte the last slot's write may overrun, just past the region. */
  function PastRegionByte(ps: seq<Parameter>, before: Byte): Byte
    requires |ps| > 0
  {
    var last := ps[|ps| - 1];
    if Overruns(last.length, last.value) then NUL else before
  }

  /** The save loop from slot `i` on sets the byte just past the region
      exactly as the last slot's write leaves it: earlier writes stop short
      of it. */
  lemma {:induction false} SaveFromPastRegion(mem: Eeprom, base: int, ps: seq<Parameter>, i: nat, pos: int, before: Byte)
    requires RegionFits(mem.data, base, ps) && i < |ps| && pos == Offset(ps, i)
    requires 0 <= base + TotalLength(ps) < |mem.data| && mem.data[base + TotalLength(ps)] == before
    ensures SaveFrom(mem, base, ps, i, pos).data[base + TotalLength(ps)] == PastRegionByte(ps, before)
    decreases |ps| - i
  {
    if i == |ps| - 1 {
      SaveFromLastSlot(mem, base, ps, pos, before);
    } else {
      SaveFromStep(mem, base, ps, i, pos);
      var mem1 := WriteSlot(mem, base + pos, ps[i].length, ps[i].value);
      var x := base + TotalLength(ps);
      OffsetMonotone(ps, i + 1, |ps|);
      assert x > base + pos + ps[i].length;
      assert mem1.data[x] == before;
      SaveFromPastRegion(mem1, base, ps, i + 1, pos + ps[i].length, before);
      assert SaveFrom(mem, base, ps, i, pos).data[x] == SaveFrom(mem1, base, ps, i + 1, pos + ps[i].length).data[x];
    }
  }

  /** The last iteration of the save loop is one slot write. */
  lemma SaveFromLastSlot(mem: Eeprom, base: int, ps: seq<Parameter>, pos: int, before: Byte)
    requires RegionFits(mem.data, base, ps) && |ps| > 0 && pos == Offset(ps, |ps| - 1)
    requires 0 <= base + TotalLength(ps) < |mem.data| && mem.data[base + TotalLength(ps)] == before
    ensures SaveFrom(mem, base, ps, |ps| - 1, pos).data[base + TotalLength(ps)] == PastRegionByte(ps, before)
  {
    var i := |ps| - 1;
    SaveFromStep(mem, base, ps, i, pos);
    var mem1 := WriteSlot(mem, base + pos, ps[i].length, ps[i].value);
    assert SaveFrom(mem1, base, ps, i + 1, pos + ps[i].length) == mem1;
    WriteSlotPast(mem, base + pos, ps[i].length, ps[i].value);
  }

  /** The save writes one byte past the registry's region when the last
      parameter's value fills its slot (or is empty in a two-byte slot). */
  lemma SaveOverrunsRegion(m: Manager, mem: Eeprom)
    requires RegionFits(mem.data, m.eepromStart, m.params) && |m.params| > 0
    requires m.eepromStart + TotalLength(m.params) < |mem.data|
    ensures 0 <= m.eepromStart + TotalLength(m.params)
    ensures var x := m.eepromStart + TotalLength(m.params);
      SaveParameters(m, mem).data[x] == PastRegionByte(m.params, mem.data[x])
  {
    OffsetMonotone(m.params, 0, |m.params|);
    SaveFromPastRegion(mem, m.eepromStart, m.params, 0, 0, mem.data[m.eepromStart + TotalLength(m.params)]);
  }

  /** After the save loop, slot `k` reads back parameter `k`'s value: the
      one-byte overrun of a slot write lands on the next slot's marker,
      which that slot's own later write sets again. */
  lemma {:induction false} SaveFromReadsBack(mem: Eeprom, base: int, ps: seq<Parameter>, i: nat, pos: int, k: nat)
    requires RegionFits(mem.data, base, ps) && i <= k < |ps| && pos == Offset(ps, i)
    requires AllValid(ps)
    ensures RegionFits(SaveFrom(mem, base, ps, i, pos).data, base, ps)
    ensures SlotContent(SaveFrom(mem, base, ps, i, pos).data, base, ps, k) == ps[k].value
    decreases k - i
  {
    if i == k {
      SaveFromWritesFirst(mem, base, ps, i, pos);
      SlotContentAt(SaveFrom(mem, base, ps, i, pos).data, base, ps, i, pos);
    } else {
      SaveFromStep(mem, base, ps, i, pos);
      var mem1 := WriteSlot(mem, base + pos, ps[i].length, ps[i].value);
      SaveFromReadsBack(mem1, base, ps, i + 1, pos + ps[i].length, k);
    }
  }

  /** The first slot the loop writes is not disturbed by the later writes,
      which all lie past its end. */
  lemma SaveFromWritesFirst(mem: Eeprom, base: int, ps: seq<Parameter>, i: nat, pos: int)
    requires RegionFits(mem.data, base, ps) && i < |ps| && pos == Offset(ps, i)
    requires Parameters.Valid(ps[i])
    ensures SlotFits(SaveFrom(mem, base, ps, i, pos).data, base + pos, ps[i].length)
    ensures ReadSlot(SaveFrom(mem, base, ps, i, pos).data, base + pos, ps[i].length) == ps[i].value
  {
    var at, len, v := base + pos, ps[i].length, ps[i].value;
    SlotInRegion(ps, i);
    OffsetMonotone(ps, i + 1, |ps|);
    var mem1 := WriteSlot(mem, at, len, v);
    SlotRoundTripFits(mem, at, len, v);
    SaveFromKeepsEarlierSlot(mem1, base, ps, i + 1, pos + len, at, len, v);
  }

  /** Slot `i` of the registry is the slot at the running offset `pos`. */
  lemma SlotContentAt(data: seq<Byte>, base: int, ps: seq<Parameter>, i: nat, pos: int)
    requires RegionFits(data, base, ps) && i < |ps| && pos == Offset(ps, i)
    ensures SlotFits(data, base + pos, ps[i].length)
    ensures SlotContent(data, base, ps, i) == ReadSlot(data, base + pos, ps[i].length)
  {
    SlotInRegion(ps, i);
  }

  /** Registry round trip: saving and then loading leaves every parameter as
      it was. */
  lemma SaveThenLoad(m: Manager, mem: Eeprom)
    requires Valid(m)
    requires RegionFits(mem.data, m.eepromStart, m.params)
    ensures RegionFits(SaveParameters(m, mem).data, m.eepromStart, m.params)
    ensures LoadParameters(m, SaveParameters(m, mem).data) == m
  {
    var d := SaveParameters(m, mem).data;
    var r := LoadParameters(m, d);
    forall k | 0 <= k < |m.params|
      ensures r.params[k] == m.params[k]
    {
      SaveFromReadsBack(mem, m.eepromStart, m.params, 0, 0, k);
      LoadParametersAt(m, d, k);
      SetValueOwnValue(m.params[k]);
    }
    assert r.params == m.params;
  }
}

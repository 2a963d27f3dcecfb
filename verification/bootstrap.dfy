/** `autoConnect` and `waitForConnection`: load the stored settings, try
    to join the stored network, and fall back to the configuration portal.
    The radio is replaced by the sequence of statuses its polls observe. */
module Bootstrap {
  import opened ByteStrings
  import opened Parameters
  import opened EepromSlots
  import opened Registry
  import opened Query
  import opened Portal

  /** The statuses `WiFi.status()` reports; only `Connected` matters here. */
  datatype WlStatus =
    | Idle | NoSsidAvailable | ScanCompleted | Connected
    | ConnectFailed | ConnectionLost | WrongPassword | Disconnected

  /** How many times `waitForConnection` polls, and the pause after each
      failed poll, in milliseconds. */
  const MAX_POLLS := 20
  const POLL_DELAY_MS := 500

  /** The size `begin` gives the EEPROM buffer. */
  const EEPROM_SIZE := 512

  /** The first of the first `MAX_POLLS` observations that reports a
      connection, or `MAX_POLLS` when none does. */
  function FirstConnected(polls: seq<WlStatus>, from: nat): (r: nat)
    requires from <= MAX_POLLS <= |polls|
    ensures from <= r <= MAX_POLLS
    ensures r < MAX_POLLS ==> polls[r] == Connected
    ensures forall k :: from <= k < r ==> polls[k] != Connected
    decreases MAX_POLLS - from
  {
    if from == MAX_POLLS || polls[from] == Connected then from
    else FirstConnected(polls, from + 1)
  }

  /** `waitForConnection`: poll at most `MAX_POLLS` times, stopping at the
      first poll that reports a connection; `waitedMs` is the time spent in
      the pauses between polls. */
  method WaitForConnection(polls: seq<WlStatus>) returns (connected: bool, waitedMs: nat)
    requires |polls| >= MAX_POLLS
    ensures connected <==> exists k :: 0 <= k < MAX_POLLS && polls[k] == Connected
    ensures connected ==> waitedMs == POLL_DELAY_MS * FirstConnected(polls, 0)
    ensures !connected ==> waitedMs == POLL_DELAY_MS * MAX_POLLS
    ensures waitedMs <= POLL_DELAY_MS * MAX_POLLS
  {
    var c := 0;
    waitedMs := 0;
    while c < MAX_POLLS
      invariant 0 <= c <= MAX_POLLS
      invariant forall k :: 0 <= k < c ==> polls[k] != Connected
      invariant waitedMs == POLL_DELAY_MS * c
    {
      if polls[c] == Connected {
        assert FirstConnected(polls, 0) == c by {
          FirstConnectedAt(polls, 0, c);
        }
        return true, waitedMs;
      }
      waitedMs := waitedMs + POLL_DELAY_MS;
      c := c + 1;
    }
    return false, waitedMs;
  }

  /** `FirstConnected` finds the first connected poll. */
  lemma {:induction false} FirstConnectedAt(polls: seq<WlStatus>, from: nat, c: nat)
    requires from <= c < MAX_POLLS <= |polls|
    requires polls[c] == Connected
    requires forall k :: from <= k < c ==> polls[k] != Connected
    ensures FirstConnected(polls, from) == c
    decreases c - from
  {
    if from < c {
      FirstConnectedAt(polls, from + 1, c);
    }
  }

  /** `begin(eepromStart)`: record where the registry starts. */
  function Begin(m: Manager, eepromStart: int): (r: Manager)
    ensures r.apName == m.apName && r.params == m.params
    ensures r.eepromStart == eepromStart
  {
    m.(eepromStart := eepromStart)
  }

  /** How `autoConnect` ends: joined the stored network (it returns true),
      or entered the configuration portal (it returns false), having tried
      to join or not. */
  datatype Boot =
    | Joined(manager: Manager, ssid: Bytes, password: Bytes)
    | ConfigMode(manager: Manager, joinAttempted: bool)

  /** What `autoConnect` needs: a registry whose reserved fields come first
      and whose region fits the buffer at `eepromStart`. */
  predicate CanBoot(m: Manager, eepromStart: int, mem: Eeprom) {
    && Registry.Valid(m) && HasReserved(m)
    && |mem.data| == EEPROM_SIZE
    && RegionFits(mem.data, eepromStart, m.params)
  }

  /** `autoConnect(eepromStart)`: load every parameter; with a stored
      network name of more than one byte, join and wait; otherwise, or
      when waiting fails, enter the portal. */
  function AutoConnect(m: Manager, eepromStart: int, mem: Eeprom, polls: seq<WlStatus>): (r: Boot)
    requires CanBoot(m, eepromStart, mem) && |polls| >= MAX_POLLS
    ensures r.manager == LoadParameters(Begin(m, eepromStart), mem.data)
    ensures var ssid := r.manager.params[0].value;
      && (r.Joined? <==> |ssid| > 1 && exists k :: 0 <= k < MAX_POLLS && polls[k] == Connected)
      && (r.Joined? ==> r.ssid == ssid && r.password == r.manager.params[1].value)
      && (r.ConfigMode? ==> (r.joinAttempted <==> |ssid| > 1))
  {
    var loaded := LoadParameters(Begin(m, eepromStart), mem.data);
    var ssid := loaded.params[0].value;
    var pass := loaded.params[1].value;
    if |ssid| > 1 then
      if FirstConnected(polls, 0) < MAX_POLLS then Joined(loaded, ssid, pass)
      else ConfigMode(loaded, true)
    else ConfigMode(loaded, false)
  }

  /** The stored network name is what the reserved `s` slot holds, cut to
      the field's 31 usable bytes. */
  lemma AutoConnectReadsSsidSlot(m: Manager, eepromStart: int, mem: Eeprom, polls: seq<WlStatus>)
    requires CanBoot(m, eepromStart, mem) && |polls| >= MAX_POLLS
    ensures var r := AutoConnect(m, eepromStart, mem, polls);
      && r.manager.params[0].id == SSID_ID
      && r.manager.params[0].value == StrlCopy(SlotContent(mem.data, eepromStart, m.params, 0), 32)
      && |r.manager.params[0].value| < 32
  {
    LoadParametersAt(Begin(m, eepromStart), mem.data, 0);
    SetValueFits(m.params[0], SlotContent(mem.data, eepromStart, m.params, 0));
  }

  /** Two registries with the same fields read the same slots. */
  lemma SameShapeSlots(ps: seq<Parameter>, qs: seq<Parameter>, data: seq<Byte>, base: int, k: nat)
    requires SameShape(ps, qs) && RegionFits(data, base, qs) && k < |ps|
    ensures RegionFits(data, base, ps)
    ensures SlotContent(data, base, ps, k) == SlotContent(data, base, qs, k)
  {
    SameShapeOffsets(ps, qs, |ps|);
    SameShapeOffsets(ps, qs, k);
  }

  /** Loading into registries with the same fields gives each parameter
      the same value. */
  lemma SameShapeLoad(next: Manager, saved: Manager, data: seq<Byte>, k: nat)
    requires SameShape(next.params, saved.params) && next.eepromStart == saved.eepromStart
    requires RegionFits(data, saved.eepromStart, saved.params) && k < |next.params|
    ensures RegionFits(data, next.eepromStart, next.params)
    ensures LoadParameters(next, data).params[k] == LoadParameters(saved, data).params[k]
  {
    SameShapeSlots(next.params, saved.params, data, saved.eepromStart, k);
    LoadParametersAt(next, data, k);
    LoadParametersAt(saved, data, k);
  }

  /** Saving a registry and loading it into a registry with the same fields
      (the one the next boot builds) restores every parameter. */
  lemma NextBootLoadsSaved(next: Manager, saved: Manager, mem: Eeprom)
    requires Registry.Valid(saved)
    requires RegionFits(mem.data, saved.eepromStart, saved.params)
    requires SameShape(next.params, saved.params) && next.eepromStart == saved.eepromStart
    ensures RegionFits(SaveParameters(saved, mem).data, next.eepromStart, next.params)
    ensures LoadParameters(next, SaveParameters(saved, mem).data).params == saved.params
  {
    var d := SaveParameters(saved, mem).data;
    SaveThenLoad(saved, mem);
    SameShapeOffsets(next.params, saved.params, |next.params|);
    var a := LoadParameters(next, d).params;
    forall k | 0 <= k < |next.params|
      ensures a[k] == saved.params[k]
    {
      SameShapeLoad(next, saved, d, k);
    }
  }

  /** End to end: when the portal finishes, the settings it saved are the
      ones the next boot loads, into a fresh registry with the same
      fields. */
  lemma PortalSettingsSurviveReboot(m: Manager, mem: Eeprom, requests: seq<Option<Bytes>>, next: Manager)
    requires Ready(m, mem)
    requires SameShape(next.params, m.params) && next.eepromStart == m.eepromStart
    ensures var r := RunPortal(m, mem, requests);
      r.Finished? ==>
        && RegionFits(r.mem.data, next.eepromStart, next.params)
        && LoadParameters(next, r.mem.data).params == r.manager.params
  {
    var r := RunPortal(m, mem, requests);
    if r.Finished? {
      var saved := SaveEffect(m, mem, SavePathOf(requests[r.at])).manager;
      NextBootLoadsSaved(next, saved, mem);
    }
  }
}

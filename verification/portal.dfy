/** The request handling of the configuration portal (`serverLoop`) and
    the loop that runs it (`startWebConfig`), with sockets, DNS and the
    network scan replaced by an injected sequence of request lines. */
module Portal {
  import opened ByteStrings
  import opened Parameters
  import opened EepromSlots
  import opened Registry
  import opened Query

  /** The two values `serverLoop` signals to its caller. */
  const WM_DONE := 0
  const WM_WAIT := 10

  /** The text holds at least two spaces. */
  predicate HasTwoSpaces(line: Bytes) {
    exists i, j :: 0 <= i < j < |line| && line[i] == SPACE && line[j] == SPACE
  }

  /** `req` is `<verb> <p> <rest>` with a verb free of spaces and NULs, the
      first space at `a`. */
  predicate LineShape(req: Bytes, a: int, p: Bytes) {
    && 0 <= a && a + |p| + 1 < |req|
    && NotIn(req[..a], SPACE) && NoNul(req[..a]) && req[a] == SPACE
    && req[a + 1..a + 1 + |p|] == p && req[a + 1 + |p|] == SPACE
  }

  /** The path of a request line: the text strictly between its first and
      second spaces. Both searches stop at a NUL, so there is no path
      unless two spaces come before the line's first NUL. */
  function ExtractPath(req: Bytes): (r: Option<Bytes>)
    ensures r.None? <==> !HasTwoSpaces(CString(req))
    ensures r.Some? ==> NoNul(r.value) && NotIn(r.value, SPACE) && exists a :: LineShape(req, a, r.value)
  {
    var start := IndexOf(req, SPACE, 0);
    var end := IndexOf(req, SPACE, start + 1);
    TwoSpacesFound(req);
    if start == -1 || end == -1 then None
    else
      var p := req[start + 1..end];
      assert LineShape(req, start, p) by {
        assert req[..start] == req[0..start];
      }
      Some(p)
  }

  /** Both searches of `ExtractPath` succeed exactly when two spaces come
      before the line's first NUL. */
  lemma TwoSpacesFound(req: Bytes)
    ensures var start := IndexOf(req, SPACE, 0);
      HasTwoSpaces(CString(req)) <==> start != -1 && IndexOf(req, SPACE, start + 1) != -1
  {
    var start := IndexOf(req, SPACE, 0);
    assert req[0..] == req;
    IndexOfMissing(req, SPACE, 0);
    if start != -1 {
      PrefixNoNul(req, start + 1);
      CStringAfter(req, start);
      IndexOfMissing(req, SPACE, start + 1);
      SecondSpaceFound(req, start);
    }
  }

  /** Once the first space is found at `start`, two spaces come before the
      first NUL exactly when the second search succeeds. */
  lemma SecondSpaceFound(req: Bytes, start: nat)
    requires start < |req| && req[start] == SPACE
    requires forall j :: 0 <= j < start ==> req[j] != SPACE
    requires CString(req) == req[..start + 1] + CString(req[start + 1..])
    requires IndexOf(req, SPACE, start + 1) == -1 <==> NotIn(CString(req[start + 1..]), SPACE)
    ensures HasTwoSpaces(CString(req)) <==> IndexOf(req, SPACE, start + 1) != -1
  {
    SpaceThen(req[..start + 1], CString(req[start + 1..]));
  }

  /** After a text whose only space is its last byte, a second space
      exists exactly when the rest holds one. */
  lemma SpaceThen(pre: Bytes, tail: Bytes)
    requires |pre| >= 1 && pre[|pre| - 1] == SPACE
    requires forall j :: 0 <= j < |pre| - 1 ==> pre[j] != SPACE
    ensures HasTwoSpaces(pre + tail) <==> !NotIn(tail, SPACE)
  {
    var c := pre + tail;
    var n := |pre|;
    if !NotIn(tail, SPACE) {
      var t :| 0 <= t < |tail| && tail[t] == SPACE;
      assert c[n - 1] == SPACE && c[n + t] == SPACE;
    } else {
      assert forall k :: 0 <= k < n ==> c[k] == pre[k];
      assert forall k :: n <= k < |c| ==> c[k] == tail[k - n];
    }
  }

  /** The partner of `ExtractPath`: a line built from a verb and a path
      free of spaces and NULs gives that path back, whatever follows. */
  lemma ExtractPathOfLine(verb: Bytes, path: Bytes, rest: Bytes)
    requires NotIn(verb, SPACE) && NoNul(verb)
    requires NotIn(path, SPACE) && NoNul(path)
    ensures ExtractPath(verb + [SPACE] + path + [SPACE] + rest) == Some(path)
  {
    var req := verb + [SPACE] + path + [SPACE] + rest;
    var a := |verb|;
    var b := a + 1 + |path|;
    forall j | 0 <= j < a ensures req[j] != SPACE && req[j] != NUL {
      assert req[j] == verb[j];
    }
    forall j | a + 1 <= j < b ensures req[j] != SPACE && req[j] != NUL {
      assert req[j] == path[j - a - 1];
    }
    assert req[a] == SPACE && req[b] == SPACE;
    assert req[a + 1..b] == path;
    // the first search finds the space at `a`
    PrefixNoNul(req, a + 1);
    CStringAfter(req, a);
    assert CString(req)[a] == req[..a + 1][a] == SPACE;
    assert req[0..] == req;
    IndexOfMissing(req, SPACE, 0);
    assert IndexOf(req, SPACE, 0) == a;
    // the second search finds the space at `b`
    var t := req[a + 1..];
    forall j | 0 <= j < |path| + 1 ensures t[j] != NUL {
      assert t[j] == req[a + 1 + j];
    }
    PrefixNoNul(t, |path| + 1);
    CStringAfter(t, |path|);
    assert CString(t)[|path|] == t[..|path| + 1][|path|] == SPACE;
    IndexOfMissing(req, SPACE, a + 1);
    assert IndexOf(req, SPACE, a + 1) == b;
  }

  /** A NUL ends the searches: `GET /s` NUL ` H` holds no path, even though
      a second space follows the NUL. */
  lemma NulEndsRequestLine()
    ensures ExtractPath([71, 69, 84, SPACE, SLASH, LOWER_S, NUL, SPACE, 72]).None?
  {
    var req: Bytes := [71, 69, 84, SPACE, SLASH, LOWER_S, NUL, SPACE, 72];
    assert IndexOf(req, SPACE, 6) == -1;
    assert IndexOf(req, SPACE, 5) == -1;
    assert IndexOf(req, SPACE, 4) == -1;
    assert IndexOf(req, SPACE, 3) == 3;
    assert IndexOf(req, SPACE, 2) == 3;
    assert IndexOf(req, SPACE, 1) == 3;
    assert IndexOf(req, SPACE, 0) == 3;
  }

  /** `path == "/"`: an Arduino `String` compared with a C string by
      `strcmp`. An extracted path holds no NUL, so this is plain equality
      with `/` for every path the loop sees. */
  predicate IsRoot(path: Bytes)
    ensures IsRoot(path) <==> |path| >= 1 && path[0] == SLASH && (|path| == 1 || path[1] == NUL)
  {
    CStringIsSlash(path);
    CString(path) == [SLASH]
  }

  /** A buffer reads as the C string `/` exactly when it starts with `/`
      followed by nothing or by a NUL. */
  lemma CStringIsSlash(s: Bytes)
    ensures CString(s) == [SLASH] <==> |s| >= 1 && s[0] == SLASH && (|s| == 1 || s[1] == NUL)
  {
    if s != [] && s[0] != NUL {
      var tail := s[1..];
      assert CString(s) == [s[0]] + CString(tail);
      assert CString(s)[0] == s[0] && |CString(s)| == 1 + |CString(tail)|;
      assert tail != [] ==> tail[0] == s[1];
      assert tail != [] && tail[0] != NUL ==> CString(tail) == [tail[0]] + CString(tail[1..]);
      assert tail == [] || tail[0] == NUL ==> CString(tail) == [];
    }
  }

  /** `path.startsWith("/s")`. */
  predicate IsSavePath(path: Bytes)
    ensures IsSavePath(path) ==> !IsRoot(path)
  {
    |path| >= 2 && path[0] == SLASH && path[1] == LOWER_S
  }

  /** A request line the loop answers by saving: a valid line whose path is
      not `/` and starts with `/s`. */
  predicate IsSaveRequest(request: Option<Bytes>) {
    && request.Some?
    && var path := ExtractPath(request.value);
    && path.Some? && !IsRoot(path.value) && IsSavePath(path.value)
  }

  /** The path of a save request. */
  function SavePathOf(request: Option<Bytes>): Bytes
    requires IsSaveRequest(request)
  {
    ExtractPath(request.value).value
  }

  /** One `<input>` of the configuration form. */
  datatype Field = Field(id: Bytes, name: Bytes, length: int, value: Bytes)

  /** What the loop sends back; the HTML text around it is not modelled. */
  datatype Response =
    | NoResponse
    | ConfigPage(title: Bytes, fields: seq<Field>)
    | SavedPage
    | RedirectToPortal

  /** The form's inputs, one per registered parameter, pre-filled with the
      parameter's default value (not its current value). */
  function FormFields(ps: seq<Parameter>): (r: seq<Field>)
    ensures |r| == |ps|
    ensures forall i :: 0 <= i < |ps| ==>
      r[i] == Field(ps[i].id, ps[i].name, ps[i].length, ps[i].defaultValue)
  {
    if ps == [] then []
    else [Field(ps[0].id, ps[0].name, ps[0].length, ps[0].defaultValue)] + FormFields(ps[1..])
  }

  /** The outcome of one `serverLoop` call. */
  datatype Step = Step(status: int, response: Response, manager: Manager, mem: Eeprom)

  /** The invariant the portal keeps between requests. */
  predicate Ready(m: Manager, mem: Eeprom) {
    Registry.Valid(m) && RegionFits(mem.data, m.eepromStart, m.params)
  }

  /** What `serverLoop` does with a save request for `path`: apply the
      query to the parameters, write them all to EEPROM, and answer with
      the saved page. */
  function SaveEffect(m: Manager, mem: Eeprom, path: Bytes): (r: Step)
    requires Ready(m, mem)
    ensures r.status == WM_DONE && r.response == SavedPage
    ensures Ready(r.manager, r.mem)
    ensures r.manager == ApplyQuery(m, path)
    ensures r.mem == SaveParameters(r.manager, mem)
    ensures r.mem.commits == mem.commits + |m.params|
  {
    ApplyPairsKeepsValid(m.params, QueryPairs(path));
    var m1 := ApplyQuery(m, path);
    Step(WM_DONE, SavedPage, m1, SaveParameters(m1, mem))
  }

  /** `serverLoop`. `request` is the first line of the accepted client's
      request, or `None` when no client is waiting. */
  function ServerStep(m: Manager, mem: Eeprom, request: Option<Bytes>): (r: Step)
    requires Ready(m, mem)
    ensures r.status == WM_DONE || r.status == WM_WAIT
    ensures r.status == WM_DONE <==> IsSaveRequest(request)
    ensures r.status == WM_WAIT ==> r.manager == m && r.mem == mem
    ensures Ready(r.manager, r.mem)
    ensures IsSaveRequest(request) ==> r == SaveEffect(m, mem, SavePathOf(request))
  {
    match request
    case None => Step(WM_WAIT, NoResponse, m, mem)
    case Some(req) =>
      match ExtractPath(req)
      case None => Step(WM_WAIT, NoResponse, m, mem)
      case Some(path) =>
        if IsRoot(path) then Step(WM_WAIT, ConfigPage(m.apName, FormFields(m.params)), m, mem)
        else if IsSavePath(path) then SaveEffect(m, mem, path)
        else Step(WM_WAIT, RedirectToPortal, m, mem)
  }

  /** The page `serverLoop` answers with: nothing for a missing or
      malformed request line, the configuration form for `/`, the saved
      page for a save request. */
  lemma ServerStepResponse(m: Manager, mem: Eeprom, request: Option<Bytes>)
    requires Ready(m, mem)
    ensures var r := ServerStep(m, mem, request);
      && (request.None? || ExtractPath(request.value).None? ==> r.response == NoResponse)
      && (request.Some? && ExtractPath(request.value).Some? && IsRoot(ExtractPath(request.value).value) ==>
            r.response == ConfigPage(m.apName, FormFields(m.params)))
      && (IsSaveRequest(request) ==> r.response == SavedPage)
  {
  }

  /** Every path other than `/` that does not start with `/s` is answered
      with a redirect to the portal, and changes nothing. */
  lemma OtherPathsRedirect(m: Manager, mem: Eeprom, req: Bytes)
    requires Ready(m, mem)
    requires ExtractPath(req).Some?
    requires !IsRoot(ExtractPath(req).value) && !IsSavePath(ExtractPath(req).value)
    ensures ServerStep(m, mem, Some(req)) == Step(WM_WAIT, RedirectToPortal, m, mem)
  {
  }

  /** How the portal loop ended: a save request was handled (the index of
      that request, and the state after it), or the requests ran out while
      it was still waiting. */
  datatype PortalEnd =
    | Finished(at: nat, manager: Manager, mem: Eeprom)
    | Waiting(manager: Manager, mem: Eeprom)

  /** `startWebConfig`'s loop: call `serverLoop` until it signals
      `WM_DONE`, here from request `i` of the injected sequence on. */
  function RunFrom(m: Manager, mem: Eeprom, requests: seq<Option<Bytes>>, i: nat): (r: PortalEnd)
    requires Ready(m, mem) && i <= |requests|
    ensures r.Waiting? ==> r.manager == m && r.mem == mem
    ensures r.Finished? ==>
      && i <= r.at < |requests| && IsSaveRequest(requests[r.at])
      && var s := SaveEffect(m, mem, SavePathOf(requests[r.at]));
      && r.manager == s.manager && r.mem == s.mem
    decreases |requests| - i
  {
    if i == |requests| then Waiting(m, mem)
    else
      var s := ServerStep(m, mem, requests[i]);
      if s.status == WM_DONE then Finished(i, s.manager, s.mem)
      else RunFrom(s.manager, s.mem, requests, i + 1)
  }

  /** None of `requests[lo..hi]` is a save request, request by request. */
  predicate NoSaveIn(requests: seq<Option<Bytes>>, lo: nat, hi: nat)
    requires lo <= hi <= |requests|
    decreases hi - lo
  {
    lo == hi || (!IsSaveRequest(requests[lo]) && NoSaveIn(requests, lo + 1, hi))
  }

  lemma {:induction false} NoSaveInAll(requests: seq<Option<Bytes>>, lo: nat, hi: nat)
    requires lo <= hi <= |requests|
    ensures NoSaveIn(requests, lo, hi) <==> forall k :: lo <= k < hi ==> !IsSaveRequest(requests[k])
    decreases hi - lo
  {
    if lo < hi {
      NoSaveInAll(requests, lo + 1, hi);
    }
  }

  /** The loop stops at the first save request and at no other: it keeps
      waiting exactly when none is left, and it finishes on the first. */
  lemma {:induction false} RunFromFirstSave(m: Manager, mem: Eeprom, requests: seq<Option<Bytes>>, i: nat)
    requires Ready(m, mem) && i <= |requests|
    ensures var r := RunFrom(m, mem, requests, i);
      && (r.Waiting? <==> NoSaveIn(requests, i, |requests|))
      && (r.Finished? ==> NoSaveIn(requests, i, r.at))
    decreases |requests| - i
  {
    if i < |requests| {
      var s := ServerStep(m, mem, requests[i]);
      if s.status == WM_DONE {
        assert RunFrom(m, mem, requests, i) == Finished(i, s.manager, s.mem);
      } else {
        RunFromFirstSave(s.manager, s.mem, requests, i + 1);
        assert RunFrom(m, mem, requests, i) == RunFrom(s.manager, s.mem, requests, i + 1);
      }
    }
  }

  /** The portal over a whole sequence of requests: requests before the
      first save request change nothing, and the first one decides the
      outcome. */
  function RunPortal(m: Manager, mem: Eeprom, requests: seq<Option<Bytes>>): (r: PortalEnd)
    requires Ready(m, mem)
    ensures r.Waiting? <==> forall k :: 0 <= k < |requests| ==> !IsSaveRequest(requests[k])
    ensures r.Waiting? ==> r.manager == m && r.mem == mem
    ensures r.Finished? ==>
      && r.at < |requests| && IsSaveRequest(requests[r.at])
      && (forall k :: 0 <= k < r.at ==> !IsSaveRequest(requests[k]))
      && var s := SaveEffect(m, mem, SavePathOf(requests[r.at]));
      && r.manager == s.manager && r.mem == s.mem
  {
    var r := RunFrom(m, mem, requests, 0);
    RunFromFirstSave(m, mem, requests, 0);
    NoSaveInAll(requests, 0, |requests|);
    NoSaveInAll(requests, 0, if r.Finished? then r.at else 0);
    r
  }
}

/** `parseQueryString` and `updateParameters`: the submitted form's query
    string is cut into `key=value` segments, each value is form-decoded,
    and each pair is applied to the registry in order. */
module Query {
  import opened ByteStrings
  import opened Parameters
  import opened UrlCodec
  import opened Registry

  /** What follows the first `?`, or everything when there is none. The
      search stops at a NUL, so a `?` after one does not count. */
  function QueryPart(s: Bytes): (r: Bytes)
    ensures |r| <= |s| && r == s[|s| - |r|..]
    ensures NotIn(CString(s), QUESTION) ==> r == s
    ensures !NotIn(CString(s), QUESTION) ==>
      var q := |s| - |r| - 1;
      0 <= q && s[q] == QUESTION && NotIn(s[..q], QUESTION) && NoNul(s[..q])
  {
    var at := IndexOf(s, QUESTION, 0);
    assert s[0..] == s;
    IndexOfMissing(s, QUESTION, 0);
    if at == -1 then s
    else
      assert forall j :: 0 <= j < at ==> s[..at][j] == s[j];
      s[at + 1..]
  }

  /** The segments the loop visits from position `pos` on: up to the next
      `&`, then past it, until no `&` remains. */
  function SplitFrom(s: Bytes, pos: nat): (r: seq<Bytes>)
    requires pos <= |s|
    ensures |r| >= 1
    decreases |s| - pos
  {
    var next := IndexOf(s, AMPERSAND, pos);
    if next == -1 then [s[pos..]] else [s[pos..next]] + SplitFrom(s, next + 1)
  }

  /** Every segment but the last is free of `&` and NUL; the last holds
      no `&` before its first NUL, where the search gives up. */
  lemma {:induction false} SplitFromNoAmpersand(s: Bytes, pos: nat)
    requires pos <= |s|
    ensures forall k :: 0 <= k < |SplitFrom(s, pos)| - 1 ==>
      NotIn(SplitFrom(s, pos)[k], AMPERSAND) && NoNul(SplitFrom(s, pos)[k])
    ensures NotIn(CString(SplitFrom(s, pos)[|SplitFrom(s, pos)| - 1]), AMPERSAND)
    decreases |s| - pos
  {
    var next := IndexOf(s, AMPERSAND, pos);
    if next == -1 {
      IndexOfMissing(s, AMPERSAND, pos);
    } else {
      var seg := s[pos..next];
      assert forall j :: 0 <= j < |seg| ==> seg[j] == s[pos + j];
      var rest := SplitFrom(s, next + 1);
      SplitFromNoAmpersand(s, next + 1);
      assert SplitFrom(s, pos) == [seg] + rest;
      assert forall k :: 1 <= k < |rest| + 1 ==> ([seg] + rest)[k] == rest[k - 1];
    }
  }

  /** The `&`-separated segments of a query; an empty query is one empty
      segment. */
  function Segments(q: Bytes): (r: seq<Bytes>)
    ensures |r| >= 1
  {
    SplitFrom(q, 0)
  }

  /** Segments glued back together with `&`: the partner of `Segments`. */
  function Join(pieces: seq<Bytes>): Bytes
    requires |pieces| >= 1
  {
    if |pieces| == 1 then pieces[0] else pieces[0] + [AMPERSAND] + Join(pieces[1..])
  }

  /** Gluing a first segment onto further ones puts one `&` between. */
  lemma JoinCons(first: Bytes, rest: seq<Bytes>)
    requires |rest| >= 1
    ensures Join([first] + rest) == first + [AMPERSAND] + Join(rest)
  {
    assert ([first] + rest)[1..] == rest;
  }

  /** A slice that contains position `at` splits around it. */
  lemma SliceAround(s: Bytes, pos: nat, at: nat)
    requires pos <= at < |s|
    ensures s[pos..] == s[pos..at] + [s[at]] + s[at + 1..]
  {
  }

  lemma {:induction false} JoinSplitFrom(s: Bytes, pos: nat)
    requires pos <= |s|
    ensures Join(SplitFrom(s, pos)) == s[pos..]
    decreases |s| - pos
  {
    var next := IndexOf(s, AMPERSAND, pos);
    if next != -1 {
      JoinSplitFrom(s, next + 1);
      JoinCons(s[pos..next], SplitFrom(s, next + 1));
      SliceAround(s, pos, next);
    }
  }

  /** Splitting loses nothing: the segments and the `&`s between them make
      up the whole query. */
  lemma JoinSegments(q: Bytes)
    ensures Join(Segments(q)) == q
  {
    JoinSplitFrom(q, 0);
  }

  /** A decoded `key=value` pair: the key is kept raw, the value decoded. */
  datatype Pair = Pair(key: Bytes, value: Bytes)

  /** One segment split at its first `=`: the key is what precedes it,
      kept raw, and the value is the decoding of the rest. A segment with
      no `=` before its first NUL gives no pair. */
  function ParsePair(token: Bytes): (r: Option<Pair>)
    ensures r.None? <==> NotIn(CString(token), EQUALS)
    ensures r.Some? ==>
      var k := |r.value.key|;
      && k < |token| && token[..k] == r.value.key && token[k] == EQUALS
      && NotIn(r.value.key, EQUALS) && NoNul(r.value.key)
      && r.value.value == Decode(token[k + 1..])
  {
    var sep := IndexOf(token, EQUALS, 0);
    assert token[0..] == token;
    IndexOfMissing(token, EQUALS, 0);
    if sep == -1 then None
    else
      assert forall j :: 0 <= j < sep ==> token[..sep][j] == token[j];
      Some(Pair(token[..sep], Decode(token[sep + 1..])))
  }

  /** The pairs of a list of segments, in order, skipping those without `=`. */
  function PairsOf(tokens: seq<Bytes>): (r: seq<Pair>)
    ensures |r| <= |tokens|
  {
    if tokens == [] then []
    else
      var rest := PairsOf(tokens[1..]);
      match ParsePair(tokens[0])
      case None => rest
      case Some(p) => [p] + rest
  }

  /** Exactly the segments holding a `=` contribute a pair: every pair
      comes from some segment, and every segment that parses contributes
      its pair. */
  lemma {:induction false} PairsOfMembers(tokens: seq<Bytes>)
    ensures forall p :: p in PairsOf(tokens) ==> exists t :: t in tokens && ParsePair(t) == Some(p)
    ensures forall t :: t in tokens && ParsePair(t).Some? ==> ParsePair(t).value in PairsOf(tokens)
    ensures (forall t :: t in tokens ==> ParsePair(t).None?) ==> PairsOf(tokens) == []
  {
    if tokens != [] {
      PairsOfMembers(tokens[1..]);
      assert forall t :: t in tokens ==> t == tokens[0] || t in tokens[1..];
    }
  }

  lemma {:induction false} PairsOfConcat(a: seq<Bytes>, b: seq<Bytes>)
    ensures PairsOf(a + b) == PairsOf(a) + PairsOf(b)
  {
    if a == [] {
      assert a + b == b;
    } else {
      assert (a + b)[1..] == a[1..] + b;
      PairsOfConcat(a[1..], b);
    }
  }

  /** The pairs a request path carries, in the order they are applied. */
  function QueryPairs(path: Bytes): seq<Pair> {
    PairsOf(Segments(QueryPart(path)))
  }

  /** `key == _params[i]->getId()`: an Arduino `String` compared with a C
      string, by `strcmp`, so both sides end at their first NUL. */
  predicate Matches(key: Bytes, id: Bytes)
    ensures NoNul(key) && NoNul(id) ==> (Matches(key, id) <==> key == id)
  {
    CStringsOfNoNul(key, id);
    CString(key) == CString(id)
  }

  /** Two NUL-free strings compare equal as C strings exactly when they are
      equal. */
  lemma CStringsOfNoNul(a: Bytes, b: Bytes)
    ensures NoNul(a) && NoNul(b) ==> (CString(a) == CString(b) <==> a == b)
  {
    if NoNul(a) && NoNul(b) {
      CStringOfNoNul(a);
      CStringOfNoNul(b);
    }
  }

  /** Parameter `j` is the first whose id the key matches. */
  predicate FirstMatchAt(ps: seq<Parameter>, key: Bytes, j: int) {
    && 0 <= j < |ps|
    && Matches(key, ps[j].id)
    && forall k :: 0 <= k < j ==> !Matches(key, ps[k].id)
  }

  /** The index the search loop stops at, or -1. */
  function FindParameter(ps: seq<Parameter>, key: Bytes, from: nat): (r: int)
    ensures r == -1 || from <= r < |ps|
    decreases |ps| - from
  {
    if from >= |ps| then -1
    else if Matches(key, ps[from].id) then from
    else FindParameter(ps, key, from + 1)
  }

  lemma {:induction false} FindParameterFirst(ps: seq<Parameter>, key: Bytes, from: nat)
    requires forall k :: 0 <= k < from && k < |ps| ==> !Matches(key, ps[k].id)
    ensures var r := FindParameter(ps, key, from);
      (r == -1 <==> forall j :: 0 <= j < |ps| ==> !Matches(key, ps[j].id))
      && (r != -1 ==> FirstMatchAt(ps, key, r))
    decreases |ps| - from
  {
    if from < |ps| && !Matches(key, ps[from].id) {
      FindParameterFirst(ps, key, from + 1);
    }
  }

  /** Two registries with the same fields apart from the values. */
  predicate SameShape(ps: seq<Parameter>, qs: seq<Parameter>) {
    && |ps| == |qs|
    && forall j :: 0 <= j < |ps| ==>
      && qs[j].id == ps[j].id && qs[j].name == ps[j].name
      && qs[j].defaultValue == ps[j].defaultValue && qs[j].length == ps[j].length
  }

  /** `updateParameters`: the first parameter whose id matches the key takes
      the value; every other parameter, and every parameter when nothing
      matches, is left as it was. */
  function UpdateParameters(ps: seq<Parameter>, key: Bytes, value: Bytes): (r: seq<Parameter>)
    requires AllUsable(ps)
    ensures SameShape(ps, r) && AllUsable(r)
    ensures forall j :: 0 <= j < |ps| ==>
      r[j] == (if FirstMatchAt(ps, key, j) then SetValue(ps[j], value) else ps[j])
  {
    FindParameterFirst(ps, key, 0);
    var i := FindParameter(ps, key, 0);
    if i == -1 then ps else ps[i := SetValue(ps[i], value)]
  }

  /** A key that matches no id changes nothing. */
  lemma UpdateUnmatched(ps: seq<Parameter>, key: Bytes, value: Bytes)
    requires AllUsable(ps)
    requires forall j :: 0 <= j < |ps| ==> !Matches(key, ps[j].id)
    ensures UpdateParameters(ps, key, value) == ps
  {
    var r := UpdateParameters(ps, key, value);
    assert forall j :: 0 <= j < |ps| ==> r[j] == ps[j];
  }

  /** Updates keep the registry invariant. */
  lemma UpdateKeepsValid(ps: seq<Parameter>, key: Bytes, value: Bytes)
    requires AllValid(ps)
    ensures AllUsable(ps) && AllValid(UpdateParameters(ps, key, value))
  {
    assert AllUsable(ps);
    var r := UpdateParameters(ps, key, value);
    forall j | 0 <= j < |ps|
      ensures Parameters.Valid(r[j])
    {
      assert Parameters.Valid(ps[j]);
      SetValueFits(ps[j], value);
    }
  }

  /** The pairs applied left to right, each as one `updateParameters`. */
  function ApplyPairs(ps: seq<Parameter>, pairs: seq<Pair>): (r: seq<Parameter>)
    requires AllUsable(ps)
    ensures SameShape(ps, r) && AllUsable(r)
    decreases |pairs|
  {
    if pairs == [] then ps
    else ApplyPairs(UpdateParameters(ps, pairs[0].key, pairs[0].value), pairs[1..])
  }

  lemma {:induction false} ApplyPairsConcat(ps: seq<Parameter>, a: seq<Pair>, b: seq<Pair>)
    requires AllUsable(ps)
    ensures ApplyPairs(ps, a + b) == ApplyPairs(ApplyPairs(ps, a), b)
    decreases |a|
  {
    if a == [] {
      assert a + b == b;
    } else {
      assert (a + b)[1..] == a[1..] + b;
      ApplyPairsConcat(UpdateParameters(ps, a[0].key, a[0].value), a[1..], b);
    }
  }

  /** First matches depend only on the ids. */
  lemma FirstMatchSameShape(ps: seq<Parameter>, qs: seq<Parameter>, key: Bytes, j: int)
    requires SameShape(ps, qs)
    ensures FirstMatchAt(ps, key, j) <==> FirstMatchAt(qs, key, j)
  {
  }

  /** A parameter that no pair's key picks out keeps its value. */
  lemma {:induction false} ApplyPairsUntouched(ps: seq<Parameter>, pairs: seq<Pair>, j: int)
    requires AllUsable(ps) && 0 <= j < |ps|
    requires forall i :: 0 <= i < |pairs| ==> !FirstMatchAt(ps, pairs[i].key, j)
    ensures ApplyPairs(ps, pairs)[j] == ps[j]
    decreases |pairs|
  {
    if pairs != [] {
      var u := UpdateParameters(ps, pairs[0].key, pairs[0].value);
      forall i | 0 <= i < |pairs[1..]|
        ensures !FirstMatchAt(u, pairs[1..][i].key, j)
      {
        FirstMatchSameShape(ps, u, pairs[1 + i].key, j);
      }
      ApplyPairsUntouched(u, pairs[1..], j);
    }
  }

  /** The last duplicate wins: a parameter ends up with the value of the
      last pair whose key picks it out, whatever came before. */
  lemma {:induction false} ApplyPairsLastWins(ps: seq<Parameter>, pairs: seq<Pair>, j: int, i: int)
    requires AllUsable(ps) && 0 <= i < |pairs|
    requires FirstMatchAt(ps, pairs[i].key, j)
    requires forall i' :: i < i' < |pairs| ==> !FirstMatchAt(ps, pairs[i'].key, j)
    ensures ApplyPairs(ps, pairs)[j] == SetValue(ps[j], pairs[i].value)
    decreases |pairs|
  {
    var u := UpdateParameters(ps, pairs[0].key, pairs[0].value);
    forall i' | 0 <= i' < |pairs| ensures FirstMatchAt(u, pairs[i'].key, j) <==> FirstMatchAt(ps, pairs[i'].key, j) {
      FirstMatchSameShape(ps, u, pairs[i'].key, j);
    }
    if i == 0 {
      ApplyPairsUntouched(u, pairs[1..], j);
    } else {
      ApplyPairsLastWins(u, pairs[1..], j, i - 1);
      SetValueOverwrites(ps[j], pairs[0].value, pairs[i].value);
    }
  }

  /** `parseQueryString` on the registry: the query's pairs applied in
      order. Ids, names, defaults and lengths stay as registered, so the
      EEPROM layout does not move. */
  function ApplyQuery(m: Manager, path: Bytes): (r: Manager)
    requires AllUsable(m.params)
    ensures r.apName == m.apName && r.eepromStart == m.eepromStart
    ensures SameShape(m.params, r.params)
    ensures TotalLength(r.params) == TotalLength(m.params)
  {
    var r := m.(params := ApplyPairs(m.params, QueryPairs(path)));
    SameShapeOffsets(m.params, r.params, |m.params|);
    r
  }

  lemma {:induction false} SameShapeOffsets(ps: seq<Parameter>, qs: seq<Parameter>, i: nat)
    requires SameShape(ps, qs) && i <= |ps|
    ensures Offset(ps, i) == Offset(qs, i)
  {
    if i > 0 {
      SameShapeOffsets(ps, qs, i - 1);
    }
  }

  /** Applying a query keeps a well-formed registry well formed. */
  lemma {:induction false} ApplyPairsKeepsValid(ps: seq<Parameter>, pairs: seq<Pair>)
    requires AllValid(ps)
    ensures AllUsable(ps) && AllValid(ApplyPairs(ps, pairs))
    decreases |pairs|
  {
    UpdateKeepsValid(ps, [], []);
    if pairs != [] {
      UpdateKeepsValid(ps, pairs[0].key, pairs[0].value);
      ApplyPairsKeepsValid(UpdateParameters(ps, pairs[0].key, pairs[0].value), pairs[1..]);
    }
  }

  /** One segment's effect: an update when it holds a pair, nothing
      otherwise. */
  function ApplySegment(ps: seq<Parameter>, token: Bytes): (r: seq<Parameter>)
    requires AllUsable(ps)
    ensures SameShape(ps, r) && AllUsable(r)
    ensures NotIn(CString(token), EQUALS) ==> r == ps
  {
    match ParsePair(token)
    case None => ps
    case Some(p) => UpdateParameters(ps, p.key, p.value)
  }

  /** Applying the pairs of a list of segments: the first segment's
      effect, then the rest. */
  lemma ApplySegmentsCons(ps: seq<Parameter>, token: Bytes, rest: seq<Bytes>)
    requires AllUsable(ps)
    ensures ApplyPairs(ps, PairsOf([token] + rest)) == ApplyPairs(ApplySegment(ps, token), PairsOf(rest))
  {
    assert ([token] + rest)[1..] == rest;
    match ParsePair(token)
    case None =>
    case Some(p) =>
      assert PairsOf([token] + rest) == [p] + PairsOf(rest);
      assert ([p] + PairsOf(rest))[1..] == PairsOf(rest);
  }

  /** Where the segment starting at `pos` ends: the next `&`, or -1. */
  function SegmentEnd(q: Bytes, pos: nat): (r: int)
    requires pos <= |q|
    ensures r == -1 || pos <= r < |q|
    ensures r != -1 ==> q[r] == AMPERSAND
    ensures r == -1 <==> NotIn(CString(q[pos..]), AMPERSAND)
  {
    IndexOfMissing(q, AMPERSAND, pos);
    IndexOf(q, AMPERSAND, pos)
  }

  /** The segment starting at `pos`, and where the next one starts (-1 when
      this one is the last). */
  function SegmentAt(q: Bytes, pos: nat): Bytes
    requires pos <= |q|
  {
    var next := SegmentEnd(q, pos);
    if next == -1 then q[pos..] else q[pos..next]
  }

  function NextPos(q: Bytes, pos: nat): (r: int)
    requires pos <= |q|
    ensures -1 <= r <= |q| && (r == -1 || pos < r)
  {
    var next := SegmentEnd(q, pos);
    if next == -1 then -1 else next + 1
  }

  /** What remains to be done once the loop is at `pos` with registry `r`. */
  function Remaining(r: seq<Parameter>, q: Bytes, pos: int): seq<Parameter>
    requires AllUsable(r) && -1 <= pos <= |q|
  {
    if pos == -1 then r else ApplyPairs(r, PairsOf(SplitFrom(q, pos)))
  }

  /** The segments from `pos`: the one at `pos`, then those from the next
      position, if any. */
  lemma SplitFromCons(q: Bytes, pos: nat)
    requires pos <= |q|
    ensures SplitFrom(q, pos) ==
      [SegmentAt(q, pos)] + (if NextPos(q, pos) == -1 then [] else SplitFrom(q, NextPos(q, pos)))
  {
  }

  /** What remains once the last segment is done is the registry itself. */
  lemma RemainingLast(r: seq<Parameter>)
    requires AllUsable(r)
    ensures ApplyPairs(r, PairsOf([])) == r
  {
  }

  /** One turn of the loop applies one segment and leaves the rest. */
  lemma RemainingStep(r: seq<Parameter>, q: Bytes, pos: nat)
    requires AllUsable(r) && pos <= |q|
    ensures Remaining(r, q, pos) == Remaining(ApplySegment(r, SegmentAt(q, pos)), q, NextPos(q, pos))
  {
    var next := NextPos(q, pos);
    var token := SegmentAt(q, pos);
    var later := if next == -1 then [] else SplitFrom(q, next);
    SplitFromCons(q, pos);
    ApplySegmentsCons(r, token, later);
    if next == -1 {
      RemainingLast(ApplySegment(r, token));
    }
  }

  /** The body of the parsing loop for one segment: split at the first
      `=`, decode the value, update the registry. */
  method ApplyToken(ps: seq<Parameter>, token: Bytes) returns (r: seq<Parameter>)
    requires AllUsable(ps)
    ensures r == ApplySegment(ps, token)
  {
    r := ps;
    var sep := IndexOf(token, EQUALS, 0);
    if sep != -1 {
      var key := token[..sep];
      var value := UrlDecode(token[sep + 1..]);
      r := UpdateParameters(r, key, value);
    }
  }

  /** The parsing loop as written: find the next `&`, take the segment,
      split it at `=`, decode the value, update, until no `&` is left. */
  method ParseQueryString(ps: seq<Parameter>, path: Bytes) returns (r: seq<Parameter>)
    requires AllUsable(ps)
    ensures r == ApplyPairs(ps, QueryPairs(path))
  {
    var q := QueryPart(path);
    r := ps;
    var pos := 0;
    while pos != -1
      invariant -1 <= pos <= |q| && AllUsable(r)
      invariant Remaining(r, q, pos) == ApplyPairs(ps, QueryPairs(path))
      decreases if pos == -1 then 0 else |q| - pos + 1
    {
      var next := IndexOf(q, AMPERSAND, pos);
      var token := if next == -1 then q[pos..] else q[pos..next];
      RemainingStep(r, q, pos);
      assert token == SegmentAt(q, pos);
      pos := if next != -1 then next + 1 else -1;
      r := ApplyToken(r, token);
    }
  }
}

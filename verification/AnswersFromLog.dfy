/** What a question is answered, said from the log and the history of the cache
    alone, without the functions that compute it from a store. */
module AnswersFromLog {
  import opened Records
  import opened FlatStore
  import opened RecordCache
  import opened Chase
  import opened Resolve

  // ----- names tried for wildcards -----

  /** A dot at `i` with no empty label before it. */
  ghost predicate LabelEnds(name: string, i: nat) {
    && 0 < i < |name| && name[i] == '.' && name[0] != '.'
    && forall j | 0 <= j < i :: name[j] == '.' ==> name[j + 1] != '.'
  }

  lemma NoDotBefore(f: string, r: string)
    requires '.' !in f
    ensures forall j | 0 <= j < |f| :: (f + "." + r)[j] != '.'
  {
    assert forall j | 0 <= j < |f| :: (f + "." + r)[j] == f[j] && f[j] in f;
  }

  lemma LaterLabel(f: string, r: string, i: nat)
    requires f != "" && '.' !in f && LabelEnds(f + "." + r, i)
    ensures i == |f| || (i > |f| + 1 && LabelEnds(r, i - |f| - 1))
  {
    var name, d := f + "." + r, |f|;
    NoDotBefore(f, r);
    assert forall j | 0 <= j < |r| :: r[j] == name[j + (d + 1)];
    if i > d {
      assert name[d] == '.' && name[d + 1] != '.';
      forall j | 0 <= j < i - d - 1 && r[j] == '.'
        ensures r[j + 1] != '.'
      {
        assert name[j + (d + 1)] == '.' && r[j + 1] == name[(j + 1) + (d + 1)];
      }
    }
  }

  lemma EarlierLabel(f: string, r: string, i: nat)
    requires f != "" && '.' !in f && LabelEnds(r, i)
    ensures LabelEnds(f + "." + r, i + |f| + 1)
  {
    var name, d := f + "." + r, |f|;
    NoDotBefore(f, r);
    AfterDot(f, r);
    forall j | 0 <= j < i + d + 1 && name[j] == '.'
      ensures name[j + 1] != '.'
    {
      if j >= d {
        var k := j - d;
        assert name[j + 1] == r[k] && (k > 0 ==> name[j] == r[k - 1]);
      }
    }
  }

  lemma AfterDot(f: string, r: string)
    ensures forall k | 0 <= k < |r| :: (f + "." + r)[|f| + 1 + k] == r[k]
  {
  }

  lemma FirstLabel(f: string, r: string)
    requires f != "" && '.' !in f
    ensures LabelEnds(f + "." + r, |f|) && (f + "." + r)[|f| + 1..] == r
  {
    NoDotBefore(f, r);
  }

  lemma TailOfTail(s: string, i: nat, j: nat)
    requires i + j <= |s|
    ensures s[i..][j..] == s[i + j..]
  {
  }

  lemma AncestorsStep(name: string, a: string)
    ensures var (first, rest) := PopLeftmostLabel(name);
      a in Ancestors(name) <==> first != "" && (a == rest || a in Ancestors(rest))
  {
    hide PopLeftmostLabel;
  }

  lemma {:induction false} AncestorHasDot(name: string, a: string) returns (i: nat)
    requires a in Ancestors(name)
    ensures LabelEnds(name, i) && i < |name| && a == name[i + 1..]
    decreases |name|
  {
    hide LabelEnds, PopLeftmostLabel, Ancestors;
    var (first, rest) := PopLeftmostLabel(name);
    AncestorsStep(name, a);
    FirstLabel(first, rest);
    i := |first|;
    if a != rest {
      var j := AncestorHasDot(rest, a);
      i := j + |first| + 1;
      EarlierLabel(first, rest, j);
      TailOfTail(name, |first| + 1, j + 1);
    }
  }

  lemma LabelHasFirst(name: string, i: nat)
    requires LabelEnds(name, i)
    ensures i < |name| && PopLeftmostLabel(name).0 != ""
  {
  }

  lemma {:induction false} DotHasAncestor(name: string, i: nat)
    requires LabelEnds(name, i)
    ensures i < |name| && name[i + 1..] in Ancestors(name)
    decreases |name|
  {
    hide LabelEnds, PopLeftmostLabel, Ancestors;
    LabelHasFirst(name, i);
    AncestorsStep(name, name[i + 1..]);
    var (first, rest) := PopLeftmostLabel(name);
    FirstLabel(first, rest);
    LaterLabel(first, rest, i);
    if i > |first| {
      TailOfTail(name, |first| + 1, i - |first|);
      DotHasAncestor(rest, i - |first| - 1);
    }
  }

  /** The names tried are what follows a dot, for every dot before which no label
      is empty. */
  lemma AncestorsExactly(name: string, a: string)
    ensures a in Ancestors(name) <==> exists i :: LabelEnds(name, i) && a == name[i + 1..]
  {
    if a in Ancestors(name) {
      var i := AncestorHasDot(name, a);
    }
    if i :| LabelEnds(name, i) && a == name[i + 1..] {
      DotHasAncestor(name, i);
    }
  }

  // ----- laws of the loops over stored strings -----

  /** Every string that parses gives its record, as often as it is there and in
      order; the others give none. */
  lemma {:induction false} GoodRecordsLaw(lib: Lib, a: seq<string>, b: seq<string>, x: string)
    ensures GoodRecords(lib, a + b) == GoodRecords(lib, a) + GoodRecords(lib, b)
    ensures GoodRecords(lib, [x])
      == if lib.parse(x).Good? then [lib.parse(x).rr] else []
  {
    hide GoodRecords;
    GoodRecordsSnoc(lib, [], x);
    assert [] + [x] == [x];
    if b == [] {
      assert a + b == a;
    } else {
      var n := |b| - 1;
      assert a + b == (a + b[..n]) + [b[n]] && b == b[..n] + [b[n]];
      GoodRecordsLaw(lib, a, b[..n], x);
      GoodRecordsSnoc(lib, a + b[..n], b[n]);
      GoodRecordsSnoc(lib, b[..n], b[n]);
    }
  }

  lemma GoodRecordsSnoc(lib: Lib, s: seq<string>, x: string)
    ensures GoodRecords(lib, []) == []
    ensures GoodRecords(lib, s + [x])
      == GoodRecords(lib, s) + (if lib.parse(x).Good? then [lib.parse(x).rr] else [])
  {
    assert (s + [x])[..|s|] == s;
  }

  /** The same for delegations, where a blank string takes an empty place. */
  lemma {:induction false} ParsedEntriesLaw(lib: Lib, a: seq<string>, b: seq<string>, x: string)
    ensures ParsedEntries(lib, a + b) == ParsedEntries(lib, a) + ParsedEntries(lib, b)
    ensures ParsedEntries(lib, [x])
      == if lib.parse(x).Good? then [Some(lib.parse(x).rr)] else if lib.parse(x).Blank? then [None] else []
  {
    hide ParsedEntries;
    ParsedEntriesSnoc(lib, [], x);
    assert [] + [x] == [x];
    if b == [] {
      assert a + b == a;
    } else {
      var n := |b| - 1;
      assert a + b == (a + b[..n]) + [b[n]] && b == b[..n] + [b[n]];
      ParsedEntriesLaw(lib, a, b[..n], x);
      ParsedEntriesSnoc(lib, a + b[..n], b[n]);
      ParsedEntriesSnoc(lib, b[..n], b[n]);
    }
  }

  lemma ParsedEntriesSnoc(lib: Lib, s: seq<string>, x: string)
    ensures ParsedEntries(lib, []) == []
    ensures ParsedEntries(lib, s + [x])
      == ParsedEntries(lib, s) + (if lib.parse(x).Good? then [Some(lib.parse(x).rr)] else if lib.parse(x).Blank? then [None] else [])
  {
    assert (s + [x])[..|s|] == s;
  }

  /** Every name server of a delegation adds its glue, in order. */
  lemma {:induction false} GlueOfLaw(lib: Lib, st: Store, a: seq<Option<RR>>, b: seq<Option<RR>>, x: Option<RR>)
    ensures GlueOf(lib, st, a + b) == GlueOf(lib, st, a) + GlueOf(lib, st, b)
    ensures GlueOf(lib, st, [x])
      == if x.Some? && x.value.data.NameServer? then Glue(lib, st, x.value.data.host) else []
  {
    hide GlueOf;
    GlueOfSnoc(lib, st, [], x);
    assert [] + [x] == [x];
    if b == [] {
      assert a + b == a;
    } else {
      var n := |b| - 1;
      assert a + b == (a + b[..n]) + [b[n]] && b == b[..n] + [b[n]];
      GlueOfLaw(lib, st, a, b[..n], x);
      GlueOfSnoc(lib, st, a + b[..n], b[n]);
      GlueOfSnoc(lib, st, b[..n], b[n]);
    }
  }

  lemma GlueOfSnoc(lib: Lib, st: Store, s: seq<Option<RR>>, x: Option<RR>)
    ensures GlueOf(lib, st, []) == []
    ensures GlueOf(lib, st, s + [x])
      == GlueOf(lib, st, s) + (if x.Some? && x.value.data.NameServer? then Glue(lib, st, x.value.data.host) else [])
  {
    hide Glue;
    assert (s + [x])[..|s|] == s;
  }

  function Somes(rrs: seq<RR>): (r: seq<Option<RR>>)
    ensures |r| == |rrs|
    ensures forall i | 0 <= i < |rrs| :: r[i] == Some(rrs[i])
  {
    seq(|rrs|, i requires 0 <= i < |rrs| => Some(rrs[i]))
  }

  lemma {:induction false} ParsePrinted(lib: Lib, rrs: seq<RR>)
    requires lib.RoundTrips()
    ensures GoodRecords(lib, Printed(lib, rrs)) == rrs
    ensures ParsedEntries(lib, Printed(lib, rrs)) == Somes(rrs)
  {
    if rrs != [] {
      var n := |rrs| - 1;
      ParsePrinted(lib, rrs[..n]);
      assert Printed(lib, rrs)[..n] == Printed(lib, rrs[..n]);
      assert Somes(rrs) == Somes(rrs[..n]) + [Some(rrs[n])];
      assert rrs == rrs[..n] + [rrs[n]];
    }
  }

  // ----- stored answers -----

  /** All stored records of a name and type are found: those added and not
      deleted since, in log order. */
  lemma RecordsAreAdded(lib: Lib, log: seq<Entry>, n: nat, name: string, rrType: nat)
    requires lib.RoundTrips() && n <= |log|
    ensures RecordsOf(lib, StateAt(lib, log, n), name, rrType) == AddedRecords(lib, log, n, name, rrType)
    ensures StringsOf(StateAt(lib, log, n), name, rrType) == Printed(lib, AddedRecords(lib, log, n, name, rrType))
  {
    hide StateAt, AddedRecords, LogStrings, GoodRecords;
    StringsOfLog(lib, log, n, name, rrType);
    LogStringsPrinted(lib, log, n, name, rrType);
    ParsePrinted(lib, AddedRecords(lib, log, n, name, rrType));
  }

  /** The same by positions: one record for each entry that added one and has no
      delete after it. */
  lemma AnswersAreAdds(lib: Lib, log: seq<Entry>, n: nat, name: string, rrType: nat) returns (pos: seq<nat>)
    requires lib.RoundTrips() && n <= |log|
    ensures forall i, j | 0 <= i < j < |pos| :: pos[i] < pos[j]
    ensures forall p :: p in pos <==> AddedAndKept(lib, log, p, n, name, rrType)
    ensures var rrs := RecordsOf(lib, StateAt(lib, log, n), name, rrType);
      && |rrs| == |pos|
      && forall i | 0 <= i < |pos| ::
           AddedAndKept(lib, log, pos[i], n, name, rrType) && lib.parse(log[pos[i]].op.rrString) == Good(rrs[i])
  {
    hide StateAt, AddedRecords, RecordsOf;
    RecordsAreAdded(lib, log, n, name, rrType);
    pos := RecordPositions(lib, log, n, name, rrType);
  }

  /** The records at the first ancestor that has any at its wildcard. */
  ghost predicate WildcardIs(lib: Lib, log: seq<Entry>, n: nat, name: string, rrType: nat, rrs: seq<RR>)
    requires n <= |log|
  {
    var a := Ancestors(name);
    && (rrs == [] ==> forall i | 0 <= i < |a| :: AddedRecords(lib, log, n, "*." + a[i], rrType) == [])
    && (rrs != [] ==> exists k | 0 <= k < |a| ::
          && rrs == AddedRecords(lib, log, n, "*." + a[k], rrType)
          && forall i | 0 <= i < k :: AddedRecords(lib, log, n, "*." + a[i], rrType) == [])
  }

  lemma WildcardFromLog(lib: Lib, log: seq<Entry>, n: nat, name: string, rrType: nat)
    requires lib.RoundTrips() && n <= |log|
    ensures WildcardIs(lib, log, n, name, rrType, Wildcard(lib, StateAt(lib, log, n), name, rrType))
  {
    hide StateAt, AddedRecords, RecordsOf, Ancestors, Wildcard;
    var a, s := Ancestors(name), StateAt(lib, log, n);
    WildcardIsLongest(lib, s, name, rrType);
    forall i | 0 <= i < |a|
      ensures RecordsOf(lib, s, Star(a[i]), rrType) == AddedRecords(lib, log, n, "*." + a[i], rrType)
    {
      RecordsAreAdded(lib, log, n, "*." + a[i], rrType);
    }
    if Wildcard(lib, s, name, rrType) != [] {
      var k := LeastHit(lib, s, a, rrType);
      WildcardSearches(lib, s, name, rrType);
      FirstHitAt(lib, s, a, rrType, k);
      assert RecordsOf(lib, s, Star(a[k]), rrType) == AddedRecords(lib, log, n, "*." + a[k], rrType);
    } else {
      forall i | 0 <= i < |a|
        ensures AddedRecords(lib, log, n, "*." + a[i], rrType) == []
      {
        assert RecordsOf(lib, s, Star(Ancestors(name)[i]), rrType) == [];
      }
    }
  }

  /** Glue for a name server: its own addresses, else those of the wildcard. */
  lemma GlueFromLog(lib: Lib, log: seq<Entry>, n: nat, host: string)
    requires lib.RoundTrips() && n <= |log|
    ensures var own, glue := AddedRecords(lib, log, n, host, 1), Glue(lib, StateAt(lib, log, n), host);
      if own != [] then glue == own else WildcardIs(lib, log, n, host, 1, glue)
  {
    hide StateAt, AddedRecords, RecordsOf, Wildcard, WildcardIs;
    RecordsAreAdded(lib, log, n, host, 1);
    WildcardFromLog(lib, log, n, host, 1);
  }

  // ----- the chase -----

  /** Where a chase goes on: no record of the asked type, another type than CNAME
      asked, and a first CNAME record there. */
  lemma ChaseFromLog(lib: Lib, log: seq<Entry>, n: nat, qType: nat, name: string)
    requires lib.RoundTrips() && n <= |log|
    ensures var g, cnames := CnameEdges(lib, StateAt(lib, log, n), qType), AddedRecords(lib, log, n, name, 5);
      var on := qType != 5 && AddedRecords(lib, log, n, name, qType) == [] && cnames != [];
      && StoredCname(lib, StateAt(lib, log, n), qType, name) == (if on then Some(cnames[0]) else None)
      && (name in g <==> on && cnames[0].data.CName?)
      && (name in g ==> g[name] == lib.lower(cnames[0].data.target))
  {
    hide StateAt, AddedRecords, GoodRecords, CnameEdges;
    var s, cnames := StateAt(lib, log, n), AddedRecords(lib, log, n, name, 5);
    RecordsAreAdded(lib, log, n, name, qType);
    RecordsAreAdded(lib, log, n, name, 5);
    EdgeAt(lib, s, qType, name);
    if cnames != [] {
      assert StringsOf(s, name, 5)[0] == lib.format(cnames[0]);
    }
  }

  lemma {:induction false} ChainAt(lib: Lib, s: Store, qType: nat, name: string, n: nat, i: nat)
    requires Walk(CnameEdges(lib, s, qType), name, n).Some? && i < n
    ensures var x := Walk(CnameEdges(lib, s, qType), name, i);
      && x.Some? && x.value in CnameEdges(lib, s, qType)
      && StoredCname(lib, s, qType, x.value) == Some(Chain(lib, s, qType, name, n)[i])
      && Walk(CnameEdges(lib, s, qType), name, i + 1) == Some(CnameEdges(lib, s, qType)[x.value])
    decreases n
  {
    hide CnameEdges, StoredCname;
    var g := CnameEdges(lib, s, qType);
    EdgeAt(lib, s, qType, name);
    if i > 0 {
      ChainAt(lib, s, qType, g[name], n - 1, i - 1);
    }
  }

  /** Each CNAME that the reply starts with is the first one still stored at its
      place on the chase, which has no record of the asked type. */
  lemma ChainFromLog(lib: Lib, log: seq<Entry>, n: nat, qType: nat, name: string, len: nat, i: nat)
    requires lib.RoundTrips() && n <= |log| && i < len
    requires Walk(CnameEdges(lib, StateAt(lib, log, n), qType), name, len).Some?
    ensures var g := CnameEdges(lib, StateAt(lib, log, n), qType);
      var x := Walk(g, name, i);
      && x.Some?
      && qType != 5 && AddedRecords(lib, log, n, x.value, qType) == [] && AddedRecords(lib, log, n, x.value, 5) != []
      && var cname := AddedRecords(lib, log, n, x.value, 5)[0];
      && cname.data.CName?
      && Chain(lib, StateAt(lib, log, n), qType, name, len)[i] == cname
      && Walk(g, name, i + 1) == Some(lib.lower(cname.data.target))
  {
    hide StateAt, AddedRecords, CnameEdges, StoredCname, Chain, Walk;
    ChainAt(lib, StateAt(lib, log, n), qType, name, len, i);
    var x := Walk(CnameEdges(lib, StateAt(lib, log, n), qType), name, i).value;
    ChaseFromLog(lib, log, n, qType, x);
  }

  // ----- the final name -----

  /** Some event added a record of the name and type that is still young. */
  ghost predicate CacheHas(lib: Lib, events: seq<CacheEvent>, now: nat, name: string, rrType: nat) {
    exists i | 0 <= i < |events| :: Young(lib, events, i, now, name, rrType)
  }

  ghost predicate Young(lib: Lib, events: seq<CacheEvent>, i: nat, now: nat, name: string, rrType: nat)
    requires i < |events|
  {
    && AddedLast(lib, events, i, name, rrType)
    && events[i].time <= now && now - events[i].time < events[i].rr.ttl * 1_000_000_000
  }

  lemma LiveIffCached(lib: Lib, events: seq<CacheEvent>, now: nat, name: string, rrType: nat)
    requires lib.RoundTrips() && Clock(events, now)
    ensures LiveInfos(lib, InfosAt(After(lib, events), name, rrType), now) != map[]
      <==> CacheHas(lib, events, now, name, rrType)
  {
    hide After, Age, AddedLast, KeyAgrees;
    var infos := InfosAt(After(lib, events), name, rrType);
    var live := LiveInfos(lib, infos, now);
    if live != map[] {
      var key :| key in live;
      var i := LiveWasAdded(lib, events, now, name, rrType, key);
    }
    if i :| 0 <= i < |events| && Young(lib, events, i, now, name, rrType) {
      YoungIsLive(lib, events, now, name, rrType, i);
    }
  }

  lemma LiveWasAdded(lib: Lib, events: seq<CacheEvent>, now: nat, name: string, rrType: nat, key: string) returns (i: nat)
    requires lib.RoundTrips() && Clock(events, now)
    requires key in LiveInfos(lib, InfosAt(After(lib, events), name, rrType), now)
    ensures i < |events| && Young(lib, events, i, now, name, rrType)
  {
    hide After, Age, AddedLast;
    HistoryAgrees(lib, events, now, name, rrType, key);
    i := LastAddFound(lib, events, name, rrType, key);
    AddedLastIsAdd(lib, events, i, name, rrType);
    YoungAdd(events, i, now);
  }

  lemma AddedLastIsAdd(lib: Lib, events: seq<CacheEvent>, i: nat, name: string, rrType: nat)
    requires i < |events| && AddedLast(lib, events, i, name, rrType)
    ensures events[i].Added?
  {
  }

  lemma YoungIsLive(lib: Lib, events: seq<CacheEvent>, now: nat, name: string, rrType: nat, i: nat)
    requires lib.RoundTrips() && Clock(events, now) && i < |events| && Young(lib, events, i, now, name, rrType)
    ensures lib.format(events[i].rr.(ttl := 0)) in LiveInfos(lib, InfosAt(After(lib, events), name, rrType), now)
  {
    hide After, Age;
    var key := lib.format(events[i].rr.(ttl := 0));
    AddedLastFound(lib, events, name, rrType, i);
    HistoryAgrees(lib, events, now, name, rrType, key);
    YoungAdd(events, i, now);
  }

  /** What resolution gives at the final name, in the order in which it is tried:
      all stored records of the type; else, after a CNAME that is not followed,
      all young records of the cache; else the name servers with their glue; else
      the records of the nearest wildcard under the name asked for. */
  lemma FinalFromLog(lib: Lib, log: seq<Entry>, n: nat, events: seq<CacheEvent>, qType: nat, x: string, now: nat)
    requires lib.RoundTrips() && Clock(events, now) && n <= |log|
    ensures var s := StateAt(lib, log, n);
      var r := AtEnd(lib, s, After(lib, events), qType, x, now);
      var exact, cnames := AddedRecords(lib, log, n, x, qType), AddedRecords(lib, log, n, x, 5);
      var servers := AddedRecords(lib, log, n, x, 2);
      var pre := if qType != 5 && cnames != [] then [cnames[0]] else [];
      if exact != [] then
        r.handled && r.answer == exact && r.live == map[] && r.ns == [] && r.extra == []
      else if CacheHas(lib, events, now, x, qType) then
        && r.handled && r.answer == pre && r.ns == [] && r.extra == []
        && r.live == LiveInfos(lib, InfosAt(After(lib, events), x, qType), now)
      else if servers != [] then
        && !r.handled && r.answer == pre && r.live == map[]
        && r.ns == Somes(servers) && r.extra == GlueOf(lib, s, Somes(servers))
      else
        && r.live == map[] && r.ns == [] && r.extra == []
        && (r.handled <==> |r.answer| > |pre|)
        && exists wild: seq<RR> :: WildcardIs(lib, log, n, x, qType, wild) && |r.answer| == |pre| + |wild|
             && r.answer[..|pre|] == pre
             && forall i | 0 <= i < |wild| :: r.answer[|pre| + i] == wild[i].(name := x)
  {
    hide StateAt, AddedRecords, After, LiveInfos, InfosAt, RecordsOf, StoredCname, Fallback, WildcardIs, CacheHas, GlueOf, CnameEdges;
    var s, c := StateAt(lib, log, n), After(lib, events);
    RecordsAreAdded(lib, log, n, x, qType);
    ChaseFromLog(lib, log, n, qType, x);
    if AddedRecords(lib, log, n, x, qType) == [] {
      FallbackFromLog(lib, log, n, events, qType, x, now);
    }
  }

  lemma FallbackFromLog(lib: Lib, log: seq<Entry>, n: nat, events: seq<CacheEvent>, qType: nat, x: string, now: nat)
    requires lib.RoundTrips() && Clock(events, now) && n <= |log|
    ensures var s := StateAt(lib, log, n);
      var r, servers := Fallback(lib, s, After(lib, events), qType, x, now), AddedRecords(lib, log, n, x, 2);
      if CacheHas(lib, events, now, x, qType) then
        && r.handled && r.answer == [] && r.ns == [] && r.extra == []
        && r.live == LiveInfos(lib, InfosAt(After(lib, events), x, qType), now)
      else if servers != [] then
        && !r.handled && r.answer == [] && r.live == map[]
        && r.ns == Somes(servers) && r.extra == GlueOf(lib, s, Somes(servers))
      else
        && r.live == map[] && r.ns == [] && r.extra == []
        && (r.handled <==> r.answer != [])
        && exists wild: seq<RR> :: WildcardIs(lib, log, n, x, qType, wild) && |r.answer| == |wild|
             && forall i | 0 <= i < |wild| :: r.answer[i] == wild[i].(name := x)
  {
    hide StateAt, AddedRecords, After, LiveInfos, InfosAt, Pruned, ParsedEntries, GlueOf, Wildcard, WildcardIs, CacheHas, StringsOf;
    RecordsAreAdded(lib, log, n, x, 2);
    ParsePrinted(lib, AddedRecords(lib, log, n, x, 2));
    LiveIffCached(lib, events, now, x, qType);
    WildcardFromLog(lib, log, n, x, qType);
    assert WildcardIs(lib, log, n, x, qType, Wildcard(lib, StateAt(lib, log, n), x, qType));
  }

  // ----- several questions -----

  /** Each question is resolved from the cache that the one before it left. */
  lemma {:induction false} QuestionAt(lib: Lib, s: Store, c: Cache, qs: seq<Question>, now: nat, i: nat)
    requires AllEnd(lib, s, qs) && i < |qs|
    ensures Ends(CnameEdges(lib, s, qs[i].qType), lib.lower(qs[i].name))
    ensures var results := ResolveAll(lib, s, c, qs, now);
      results[i] == ResolveName(lib, s, if i == 0 then c else results[i - 1].cache, qs[i].qType, lib.lower(qs[i].name), now)
    ensures CacheAfter(c, ResolveAll(lib, s, c, qs, now)) == ResolveAll(lib, s, c, qs, now)[|qs| - 1].cache
  {
    hide ResolveName, CnameEdges;
    var n := |qs| - 1;
    ResolveMore(lib, s, c, qs, n, now);
    assert qs[..n + 1] == qs;
    if i < n {
      QuestionAt(lib, s, c, qs[..n], now, i);
    } else if n > 0 {
      assert CacheAfter(c, ResolveAll(lib, s, c, qs[..n], now)) == ResolveAll(lib, s, c, qs[..n], now)[n - 1].cache;
    }
  }

  /** The questions left over are those not handled, in order. */
  lemma {:induction false} UnhandledPositions(qs: seq<Question>, results: seq<Resolution>) returns (pos: seq<nat>)
    requires |qs| == |results|
    ensures forall i, j | 0 <= i < j < |pos| :: pos[i] < pos[j]
    ensures forall p: nat :: p in pos <==> p < |qs| && !results[p].handled
    ensures |Unhandled(qs, results)| == |pos|
      && forall i | 0 <= i < |pos| :: pos[i] < |qs| && Unhandled(qs, results)[i] == qs[pos[i]]
  {
    pos := [];
    if qs != [] {
      var n := |qs| - 1;
      var front := UnhandledPositions(qs[..n], results[..n]);
      pos := front + if results[n].handled then [] else [n];
      forall p: nat
        ensures p in pos <==> p < |qs| && !results[p].handled
      {
        assert p in pos <==> p in front || (p == n && !results[n].handled);
      }
    }
  }

  /** Every question adds its own part to each section of the reply. */
  lemma ReplySnoc(results: seq<Resolution>, cached: seq<seq<RR>>, res: Resolution, records: seq<RR>)
    requires |results| == |cached|
    ensures ReplyOf([], []) == Reply([], [], [])
    ensures var r := ReplyOf(results, cached);
      ReplyOf(results + [res], cached + [records])
        == Reply(r.answer + (res.answer + records), r.ns + res.ns, r.extra + res.extra)
  {
    assert (results + [res])[..|results|] == results && (cached + [records])[..|cached|] == cached;
  }
}

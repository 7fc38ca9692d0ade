/** Answering questions from the in-memory store. */
module FlatQuery {
  import opened Records
  import opened FlatStore
  import opened RecordCache
  import opened Chase
  import opened Resolve

  /** The three sections of a reply. */
  class Msg {
    var answer: seq<RR>
    var ns: seq<Option<RR>>
    var extra: seq<RR>

    constructor ()
      ensures Value() == Reply([], [], [])
    {
      answer, ns, extra := [], [], [];
    }

    function Value(): Reply
      reads this
    {
      Reply(answer, ns, extra)
    }
  }

  method StringsToRRs(lib: Lib, sList: seq<string>) returns (rrs: seq<Option<RR>>)
    ensures rrs == ParsedEntries(lib, sList)
  {
    rrs := [];
    for i := 0 to |sList|
      invariant rrs == ParsedEntries(lib, sList[..i])
    {
      assert sList[..i + 1][..i] == sList[..i];
      match lib.parse(sList[i]) {
        case Bad =>
        case Blank => rrs := rrs + [None];
        case Good(rr) => rrs := rrs + [Some(rr)];
      }
    }
    assert sList[..|sList|] == sList;
  }

  /** The loops that append what parses. */
  method ParseRecords(lib: Lib, sList: seq<string>) returns (rrs: seq<RR>)
    ensures rrs == GoodRecords(lib, sList)
  {
    rrs := [];
    for i := 0 to |sList|
      invariant rrs == GoodRecords(lib, sList[..i])
    {
      assert sList[..i + 1][..i] == sList[..i];
      var p := lib.parse(sList[i]);
      if p.Good? {
        rrs := rrs + [p.rr];
      }
    }
    assert sList[..|sList|] == sList;
  }

  /** A wildcard's records take the name asked for. */
  method Rename(rrs: seq<RR>, name: string) returns (renamed: seq<RR>)
    ensures renamed == Renamed(rrs, name)
  {
    renamed := [];
    for i := 0 to |rrs|
      invariant renamed == Renamed(rrs[..i], name)
    {
      assert rrs[..i + 1][..i] == rrs[..i];
      renamed := renamed + [rrs[i].(name := name)];
    }
    assert rrs[..|rrs|] == rrs;
  }

  method ParseTyped(lib: Lib, typeMap: TypeMap, rrType: nat) returns (rrs: seq<RR>)
    ensures rrs == GoodRecords(lib, StringsIn(typeMap, rrType))
  {
    var strs := if rrType in typeMap then typeMap[rrType] else [];
    rrs := ParseRecords(lib, strs);
  }

  /** The CNAME among a name's records that is looked at. */
  method FirstCname(lib: Lib, typeMap: TypeMap, qType: nat) returns (cname: Option<RR>)
    ensures cname == CnameIn(lib, typeMap, qType)
  {
    cname := None;
    if qType != TYPE_CNAME && TYPE_CNAME in typeMap && typeMap[TYPE_CNAME] != [] {
      var p := lib.parse(typeMap[TYPE_CNAME][0]);
      if p.Good? {
        cname := Some(p.rr);
      }
    }
  }

  method LookupNameMap(s: DnsStore, name: string) returns (typeMap: TypeMap, hasTypeMap: bool)
    ensures hasTypeMap == (name in s.store) && typeMap == TypeMapOf(s.store, name)
  {
    hasTypeMap := name in s.store;
    typeMap := if hasTypeMap then s.store[name] else map[];
  }

  /** Pop labels until a wildcard has records of the type. */
  method SearchWildcard(s: DnsStore, name: string, rrType: nat) returns (rrs: seq<RR>)
    ensures rrs == Wildcard(s.lib, s.store, name, rrType)
  {
    rrs := [];
    var rest := name;
    while true
      invariant rrs == []
      invariant Wildcard(s.lib, s.store, rest, rrType) == Wildcard(s.lib, s.store, name, rrType)
      decreases |rest|
    {
      var (leftLabel, rest') := PopLeftmostLabel(rest);
      if leftLabel == "" {
        return;
      }
      rest := rest';
      var typeMap, _ := LookupNameMap(s, Star(rest));
      rrs := ParseTyped(s.lib, typeMap, rrType);
      if rrs != [] {
        return;
      }
    }
  }

  method GetGlueRecords(s: DnsStore, nsName: string) returns (glue: seq<RR>)
    ensures glue == Glue(s.lib, s.store, nsName)
  {
    var typeMap, _ := LookupNameMap(s, nsName);
    glue := ParseTyped(s.lib, typeMap, TYPE_A);
    if glue == [] {
      glue := SearchWildcard(s, nsName, TYPE_A);
    }
  }

  /** The name servers of a name, and glue for each of them. */
  method Delegation(s: DnsStore, typeMap: TypeMap) returns (ns: seq<Option<RR>>, glue: seq<RR>)
    ensures ns == ParsedEntries(s.lib, StringsIn(typeMap, TYPE_NS))
    ensures glue == GlueOf(s.lib, s.store, ns)
  {
    hide Glue, ParsedEntries;
    var nsList := if TYPE_NS in typeMap then typeMap[TYPE_NS] else [];
    ns := StringsToRRs(s.lib, nsList);
    glue := [];
    for i := 0 to |ns|
      invariant glue == GlueOf(s.lib, s.store, ns[..i])
    {
      assert ns[..i + 1][..i] == ns[..i];
      if ns[i].Some? && ns[i].value.data.NameServer? {
        var g := GetGlueRecords(s, ns[i].value.data.host);
        glue := glue + g;
      }
    }
    assert ns[..|ns|] == ns;
  }

  /** Resolve one question into `r`. Without a cycle among the CNAMEs that the
      question can follow, this returns; with one the program would not. */
  method HandleSingleQuestion(name: string, qType: nat, now: nat, r: Msg, s: DnsStore, cache: RecordCacheStore)
    returns (handled: bool, ghost order: seq<string>, ghost cached: seq<RR>)
    requires s.lib == cache.lib
    requires Ends(CnameEdges(s.lib, s.store, qType), s.lib.lower(name))
    modifies r, cache
    ensures var res := ResolveName(s.lib, s.store, old(cache.cache), qType, s.lib.lower(name), now);
      && handled == res.handled
      && Listing(s.lib, res.live, now, order, cached)
      && r.Value() == Extended(old(r.Value()), res, cached)
      && cache.cache == res.cache
    ensures var strs := StringsOf(s.store, s.lib.lower(name), qType);
      Parseable(s.lib, strs) ==> handled && AllAnswered(s.lib, strs, old(r.answer), r.answer)
    ensures HandledIffAnswered(s.lib, s.store, old(cache.cache), qType, s.lib.lower(name), now,
                               |old(r.answer)|, r.answer, handled)
    decreases ChaseLength(CnameEdges(s.lib, s.store, qType), s.lib.lower(name))
  {
    hide ResolveName, Fallback, RecordsOf, StringsOf, StringsIn, CnameIn, TypeMapOf, StoredCname, Next, CnameEdges, ChaseLength, Listing, Extended, Prefixed, HandledIffAnswered, Parseable, AllAnswered;
    var lib := s.lib;
    var domainName := lib.lower(name);
    EdgeAt(lib, s.store, qType, domainName);
    ghost var before, c := r.Value(), cache.cache;
    if Parseable(lib, StringsOf(s.store, domainName, qType)) {
      ExactAnswered(lib, s.store, domainName, qType, before.answer);
    }
    var typeMap, _ := LookupNameMap(s, domainName);
    var exact := ParseTyped(lib, typeMap, qType);
    FoundIn(lib, s.store, qType, domainName);
    r.answer := r.answer + exact;
    if exact != [] {
      ExactMatch(lib, s.store, c, qType, domainName, now);
      ExactReply(lib, before, exact, c, now);
      PositiveAnswer(lib, s.store, c, qType, domainName, now, before, [], []);
      return true, [], [];
    }
    var cname := FirstCname(lib, typeMap, qType);
    if cname.Some? {
      r.answer := r.answer + [cname.value];
      assert r.Value() == before.(answer := before.answer + [cname.value]);
      if cname.value.data.CName? {
        ResolveStep(lib, s.store, c, qType, domainName, now);
        ghost var res := ResolveName(lib, s.store, c, qType, lib.lower(cname.value.data.target), now);
        handled, order, cached := HandleSingleQuestion(cname.value.data.target, qType, now, r, s, cache);
        ExtendedPrefixed(before, [cname.value], res, cached);
        PositiveAnswer(lib, s.store, c, qType, domainName, now, before, order, cached);
        return;
      }
    }
    NoMatch(lib, s.store, c, qType, domainName, now);
    ghost var res := Fallback(lib, s.store, c, qType, domainName, now);
    handled, order, cached := Finish(domainName, typeMap, qType, now, r, s, cache);
    ExtendedPrefixed(before, if cname.Some? then [cname.value] else [], res, cached);
    PositiveAnswer(lib, s.store, c, qType, domainName, now, before, order, cached);
  }

  /** Cache, zone border, wildcard: what is tried at the end of the chase when
      there is no exact match. */
  method Finish(domainName: string, typeMap: TypeMap, qType: nat, now: nat, r: Msg, s: DnsStore, cache: RecordCacheStore)
    returns (handled: bool, ghost order: seq<string>, ghost cached: seq<RR>)
    requires s.lib == cache.lib && typeMap == TypeMapOf(s.store, domainName)
    modifies r, cache
    ensures var res := Fallback(s.lib, s.store, old(cache.cache), qType, domainName, now);
      && handled == res.handled
      && Listing(s.lib, res.live, now, order, cached)
      && r.Value() == Extended(old(r.Value()), res, cached)
      && cache.cache == res.cache
  {
    hide Fallback, Extended, GoodRecords, Wildcard, GlueOf, Renamed, ParsedEntries,
      Listing, LiveInfos, InfosAt, Pruned, StringsIn, TypeMapOf;
    ghost var before, c, v := r.Value(), cache.cache, s.store;
    ghost var live := LiveInfos(s.lib, InfosAt(cache.cache, domainName, qType), now);
    var crs;
    crs, order := cache.GetCacheRecords(domainName, qType, now);
    cached := crs;
    FallbackReply(s.lib, v, c, qType, domainName, now, before, cached);
    ListingEmpty(s.lib, live, now, order, crs);
    r.answer := r.answer + crs;
    if |crs| > 0 {
      return true, order, cached;
    }
    var ns, glue := Delegation(s, typeMap);
    if |ns| > 0 {
      r.ns := r.ns + ns;
      r.extra := r.extra + glue;
      return false, order, cached;
    }
    var wild := SearchWildcard(s, domainName, qType);
    var matches := Rename(wild, domainName);
    r.answer := r.answer + matches;
    handled := matches != [];
  }

  /** A whole query, up to the questions that are left for recursion. */
  method ProcessDNSQuery(questions: seq<Question>, now: nat, s: DnsStore, cache: RecordCacheStore)
    returns (r: Msg, unhandled: seq<Question>, ghost cached: seq<seq<RR>>)
    requires s.lib == cache.lib && AllEnd(s.lib, s.store, questions)
    modifies cache
    ensures fresh(r)
    ensures var results := ResolveAll(s.lib, s.store, old(cache.cache), questions, now);
      && AllListed(s.lib, now, results, cached)
      && r.Value() == ReplyOf(results, cached)
      && unhandled == Unhandled(questions, results)
      && cache.cache == CacheAfter(old(cache.cache), results)
  {
    hide ResolveName, CnameEdges, Extended, ResolveAll, AllEnd, Listing, Listed;
    ghost var c := cache.cache;
    r := new Msg();
    unhandled, cached := [], [];
    ghost var results := [];
    NoQuestions(s.lib, s.store, c, now);
    assert questions[..0] == [];
    for i := 0 to |questions|
      invariant AllEnd(s.lib, s.store, questions[..i])
      invariant results == ResolveAll(s.lib, s.store, c, questions[..i], now) && |results| == i
      invariant AllListed(s.lib, now, results, cached)
      invariant r.Value() == ReplyOf(results, cached)
      invariant unhandled == Unhandled(questions[..i], results)
      invariant cache.cache == CacheAfter(c, results)
    {
      hide AllListed, ReplyOf, Unhandled, CacheAfter;
      var q := questions[i];
      ResolveMore(s.lib, s.store, c, questions, i, now);
      ghost var res := ResolveName(s.lib, s.store, cache.cache, q.qType, s.lib.lower(q.name), now);
      var handled;
      ghost var order, crs;
      handled, order, crs := HandleSingleQuestion(q.name, q.qType, now, r, s, cache);
      if !handled {
        unhandled := unhandled + [q];
      }
      ResultsMore(s.lib, c, now, questions, i, results, cached, res, order, crs);
      results, cached := results + [res], cached + [crs];
    }
    assert questions[..|questions|] == questions;
  }
}

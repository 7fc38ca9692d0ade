/** Answering questions from the paged store. Every lookup may load a page, swap
    another one out and reorder the list; the answers are those of the view. */
module PagedQuery {
  import opened Records
  import opened FlatStore
  import opened Pages
  import opened RecordCache
  import opened Chase
  import opened Resolve
  import opened PagedStore
  import opened Recovery
  import FlatQuery

  type Msg = FlatQuery.Msg

  /** A query only looks names up, and the view stays the same. */
  ghost predicate Kept(lib: Lib, cap: nat, m: Paged, m': Paged) {
    View(lib, m') == View(lib, m) && OnlyLookups(lib, cap, m, m')
  }

  /** Pop labels until a wildcard has records of the type. */
  method SearchWildcard(s: PagedDnsStore, name: string, rrType: nat) returns (rrs: seq<RR>)
    requires s.Valid()
    modifies s, s.Repr
    ensures s.Valid() && fresh(s.Repr - old(s.Repr)) && Kept(s.lib, s.cap, old(s.Model), s.Model)
    ensures rrs == Wildcard(s.lib, old(View(s.lib, s.Model)), name, rrType)
  {
    hide PagedDnsStore.Valid, Copy, View, GetPage, OnlyLookups, RecordsOf, GoodRecords, StringsIn;
    rrs := [];
    var rest := name;
    ghost var v := View(s.lib, s.Model);
    NoLookups(s.lib, s.cap, s.Model);
    while true
      invariant s.Valid() && fresh(s.Repr - old(s.Repr)) && Kept(s.lib, s.cap, old(s.Model), s.Model)
      invariant rrs == []
      invariant Wildcard(s.lib, v, rest, rrType) == Wildcard(s.lib, v, name, rrType)
      decreases |rest|
    {
      var (leftLabel, rest') := PopLeftmostLabel(rest);
      if leftLabel == "" {
        return;
      }
      rest := rest';
      ghost var m := s.Model;
      var typeMap, _ := s.LookupNameMap(Star(rest));
      LookupMore(s.lib, s.cap, old(s.Model), m, Star(rest));
      FoundIn(s.lib, v, rrType, Star(rest));
      rrs := FlatQuery.ParseTyped(s.lib, typeMap, rrType);
      if rrs != [] {
        return;
      }
    }
  }

  method GetGlueRecords(s: PagedDnsStore, nsName: string) returns (glue: seq<RR>)
    requires s.Valid()
    modifies s, s.Repr
    ensures s.Valid() && fresh(s.Repr - old(s.Repr)) && Kept(s.lib, s.cap, old(s.Model), s.Model)
    ensures glue == Glue(s.lib, old(View(s.lib, s.Model)), nsName)
  {
    hide PagedDnsStore.Valid, Copy, View, GetPage, OnlyLookups, RecordsOf, Wildcard;
    FoundIn(s.lib, View(s.lib, s.Model), TYPE_A, nsName);
    NoLookups(s.lib, s.cap, s.Model);
    LookupMore(s.lib, s.cap, s.Model, s.Model, nsName);
    var typeMap, _ := s.LookupNameMap(nsName);
    ghost var m := s.Model;
    glue := FlatQuery.ParseTyped(s.lib, typeMap, TYPE_A);
    if glue == [] {
      glue := SearchWildcard(s, nsName, TYPE_A);
      LookupsTwice(s.lib, s.cap, old(s.Model), m, s.Model);
    }
  }

  /** The name servers of a name, and glue for each of them. */
  method Delegation(s: PagedDnsStore, typeMap: TypeMap) returns (ns: seq<Option<RR>>, glue: seq<RR>)
    requires s.Valid()
    modifies s, s.Repr
    ensures s.Valid() && fresh(s.Repr - old(s.Repr)) && Kept(s.lib, s.cap, old(s.Model), s.Model)
    ensures ns == ParsedEntries(s.lib, StringsIn(typeMap, TYPE_NS))
    ensures glue == GlueOf(s.lib, old(View(s.lib, s.Model)), ns)
  {
    hide PagedDnsStore.Valid, Copy, View, GetPage, OnlyLookups, Glue, ParsedEntries;
    ghost var v := View(s.lib, s.Model);
    NoLookups(s.lib, s.cap, s.Model);
    var nsList := if TYPE_NS in typeMap then typeMap[TYPE_NS] else [];
    ns := FlatQuery.StringsToRRs(s.lib, nsList);
    glue := [];
    for i := 0 to |ns|
      invariant s.Valid() && fresh(s.Repr - old(s.Repr)) && Kept(s.lib, s.cap, old(s.Model), s.Model)
      invariant glue == GlueOf(s.lib, v, ns[..i])
    {
      assert ns[..i + 1][..i] == ns[..i];
      if ns[i].Some? && ns[i].value.data.NameServer? {
        ghost var m := s.Model;
        var g := GetGlueRecords(s, ns[i].value.data.host);
        LookupsTwice(s.lib, s.cap, old(s.Model), m, s.Model);
        glue := glue + g;
      }
    }
    assert ns[..|ns|] == ns;
  }

  /** Cache, zone border, wildcard: what is tried at the end of the chase when
      there is no exact match. */
  method Finish(domainName: string, typeMap: TypeMap, qType: nat, now: nat, r: Msg, s: PagedDnsStore, cache: RecordCacheStore)
    returns (handled: bool, ghost order: seq<string>, ghost cached: seq<RR>)
    requires typeMap == TypeMapOf(View(s.lib, s.Model), domainName)
    requires s.Valid() && s.lib == cache.lib && r !in s.Repr && cache !in s.Repr
    modifies r, cache, s, s.Repr
    ensures s.Valid() && fresh(s.Repr - old(s.Repr)) && Kept(s.lib, s.cap, old(s.Model), s.Model)
    ensures var res := Fallback(s.lib, old(View(s.lib, s.Model)), old(cache.cache), qType, domainName, now);
      && handled == res.handled
      && Listing(s.lib, res.live, now, order, cached)
      && r.Value() == Extended(old(r.Value()), res, cached)
      && cache.cache == res.cache
  {
    hide Fallback, Extended, PagedDnsStore.Valid, Copy, View, GetPage, OnlyLookups, GoodRecords, Wildcard, GlueOf, Renamed, ParsedEntries,
      Listing, LiveInfos, InfosAt, Pruned, StringsIn, TypeMapOf;
    ghost var before, c, v := r.Value(), cache.cache, View(s.lib, s.Model);
    ghost var live := LiveInfos(s.lib, InfosAt(cache.cache, domainName, qType), now);
    NoLookups(s.lib, s.cap, s.Model);
    var crs;
    crs, order := cache.GetCacheRecords(domainName, qType, now);
    cached := crs;
    FallbackReply(s.lib, v, c, qType, domainName, now, before, cached);
    ListingEmpty(s.lib, live, now, order, crs);
    r.answer := r.answer + crs;
    if |crs| > 0 {
      return true, order, cached;
    }
    var ns, glue := Delegation(s, typeMap);
    ghost var m := s.Model;
    if |ns| > 0 {
      r.ns := r.ns + ns;
      r.extra := r.extra + glue;
      return false, order, cached;
    }
    var wild := SearchWildcard(s, domainName, qType);
    LookupsTwice(s.lib, s.cap, old(s.Model), m, s.Model);
    var matches := FlatQuery.Rename(wild, domainName);
    r.answer := r.answer + matches;
    handled := matches != [];
  }

  /** Resolve one question into `r`. */
  method PagedHandleSingleQuestion(name: string, qType: nat, now: nat, r: Msg, s: PagedDnsStore, cache: RecordCacheStore)
    returns (handled: bool, ghost order: seq<string>, ghost cached: seq<RR>)
    requires s.Valid() && s.lib == cache.lib && r !in s.Repr && cache !in s.Repr
    requires Ends(CnameEdges(s.lib, View(s.lib, s.Model), qType), s.lib.lower(name))
    modifies r, cache, s, s.Repr
    ensures s.Valid() && fresh(s.Repr - old(s.Repr)) && Kept(s.lib, s.cap, old(s.Model), s.Model)
    ensures var res := ResolveName(s.lib, old(View(s.lib, s.Model)), old(cache.cache), qType, s.lib.lower(name), now);
      && handled == res.handled
      && Listing(s.lib, res.live, now, order, cached)
      && r.Value() == Extended(old(r.Value()), res, cached)
      && cache.cache == res.cache
    ensures var strs := StringsOf(old(View(s.lib, s.Model)), s.lib.lower(name), qType);
      Parseable(s.lib, strs) ==> handled && AllAnswered(s.lib, strs, old(r.answer), r.answer)
    ensures HandledIffAnswered(s.lib, old(View(s.lib, s.Model)), old(cache.cache), qType, s.lib.lower(name), now,
                               |old(r.answer)|, r.answer, handled)
    decreases ChaseLength(CnameEdges(s.lib, View(s.lib, s.Model), qType), s.lib.lower(name))
  {
    hide PagedDnsStore.Valid, Copy, View, GetPage, OnlyLookups, ResolveName, Fallback, RecordsOf, StringsOf, StringsIn, CnameIn, StoredCname, Next, CnameEdges, ChaseLength, Listing, Extended, Prefixed, HandledIffAnswered, Parseable, AllAnswered;
    var lib := s.lib;
    var domainName := lib.lower(name);
    ghost var before, c, v := r.Value(), cache.cache, View(lib, s.Model);
    if Parseable(lib, StringsOf(v, domainName, qType)) {
      ExactAnswered(lib, v, domainName, qType, before.answer);
    }
    EdgeAt(lib, v, qType, domainName);
    NoLookups(lib, s.cap, s.Model);
    LookupMore(lib, s.cap, s.Model, s.Model, domainName);
    var typeMap, _ := s.LookupNameMap(domainName);
    ghost var m := s.Model;
    assert typeMap == TypeMapOf(v, domainName);
    var exact := FlatQuery.ParseTyped(lib, typeMap, qType);
    FoundIn(lib, v, qType, domainName);
    r.answer := r.answer + exact;
    if exact != [] {
      ExactMatch(lib, v, c, qType, domainName, now);
      ExactReply(lib, before, exact, c, now);
      PositiveAnswer(lib, v, c, qType, domainName, now, before, [], []);
      return true, [], [];
    }
    var cname := FlatQuery.FirstCname(lib, typeMap, qType);
    if cname.Some? {
      r.answer := r.answer + [cname.value];
      assert r.Value() == before.(answer := before.answer + [cname.value]);
      if cname.value.data.CName? {
        ResolveStep(lib, v, c, qType, domainName, now);
        ghost var res := ResolveName(lib, v, c, qType, lib.lower(cname.value.data.target), now);
        handled, order, cached := PagedHandleSingleQuestion(cname.value.data.target, qType, now, r, s, cache);
        LookupsTwice(lib, s.cap, old(s.Model), m, s.Model);
        ExtendedPrefixed(before, [cname.value], res, cached);
        PositiveAnswer(lib, v, c, qType, domainName, now, before, order, cached);
        return;
      }
    }
    NoMatch(lib, v, c, qType, domainName, now);
    ghost var res := Fallback(lib, v, c, qType, domainName, now);
    handled, order, cached := Finish(domainName, typeMap, qType, now, r, s, cache);
    LookupsTwice(lib, s.cap, old(s.Model), m, s.Model);
    ExtendedPrefixed(before, if cname.Some? then [cname.value] else [], res, cached);
    PositiveAnswer(lib, v, c, qType, domainName, now, before, order, cached);
  }

  /** A whole query, up to the questions that are left for recursion. */
  method PagedProcessDNSQuery(questions: seq<Question>, now: nat, s: PagedDnsStore, cache: RecordCacheStore)
    returns (r: Msg, unhandled: seq<Question>, ghost cached: seq<seq<RR>>)
    requires s.Valid() && s.lib == cache.lib && cache !in s.Repr
    requires AllEnd(s.lib, View(s.lib, s.Model), questions)
    modifies cache, s, s.Repr
    ensures fresh(r)
    ensures s.Valid() && fresh(s.Repr - old(s.Repr)) && Kept(s.lib, s.cap, old(s.Model), s.Model)
    ensures var results := ResolveAll(s.lib, old(View(s.lib, s.Model)), old(cache.cache), questions, now);
      && AllListed(s.lib, now, results, cached)
      && r.Value() == ReplyOf(results, cached)
      && unhandled == Unhandled(questions, results)
      && cache.cache == CacheAfter(old(cache.cache), results)
  {
    hide PagedDnsStore.Valid, Copy, View, GetPage, OnlyLookups, ResolveName, CnameEdges, Extended, ResolveAll, AllEnd, Listing, Listed;
    ghost var c, v := cache.cache, View(s.lib, s.Model);
    r := new FlatQuery.Msg();
    unhandled, cached := [], [];
    ghost var results := [];
    NoQuestions(s.lib, v, c, now);
    NoLookups(s.lib, s.cap, s.Model);
    assert questions[..0] == [];
    for i := 0 to |questions|
      invariant s.Valid() && fresh(s.Repr - old(s.Repr)) && Kept(s.lib, s.cap, old(s.Model), s.Model)
      invariant r !in s.Repr && cache !in s.Repr
      invariant AllEnd(s.lib, v, questions[..i])
      invariant results == ResolveAll(s.lib, v, c, questions[..i], now) && |results| == i
      invariant AllListed(s.lib, now, results, cached)
      invariant r.Value() == ReplyOf(results, cached)
      invariant unhandled == Unhandled(questions[..i], results)
      invariant cache.cache == CacheAfter(c, results)
    {
      hide PagedDnsStore.Valid, Copy, View, GetPage, OnlyLookups, AllListed, ReplyOf, Unhandled, CacheAfter;
      var q := questions[i];
      ResolveMore(s.lib, v, c, questions, i, now);
      ghost var res := ResolveName(s.lib, v, cache.cache, q.qType, s.lib.lower(q.name), now);
      var handled;
      ghost var order, crs;
      ghost var m := s.Model;
      handled, order, crs := PagedHandleSingleQuestion(q.name, q.qType, now, r, s, cache);
      LookupsTwice(s.lib, s.cap, old(s.Model), m, s.Model);
      if !handled {
        unhandled := unhandled + [q];
      }
      ResultsMore(s.lib, c, now, questions, i, results, cached, res, order, crs);
      results, cached := results + [res], cached + [crs];
    }
    assert questions[..|questions|] == questions;
  }

  /** The paged store answers any query as the in-memory store with the same
      records and cache does: the same questions are left over, the same name
      servers and glue are given in the same order, the same answers in any
      order, and both caches end up the same. */
  method PagedAnswersLikeFlat(questions: seq<Question>, now: nat,
                              flat: DnsStore, flatCache: RecordCacheStore,
                              paged: PagedDnsStore, pagedCache: RecordCacheStore)
    returns (r1: Msg, unhandled1: seq<Question>, r2: Msg, unhandled2: seq<Question>)
    requires paged.Valid() && pagedCache !in paged.Repr && flat !in paged.Repr && flatCache !in paged.Repr
    requires flatCache != pagedCache && flatCache.cache == pagedCache.cache
    requires flat.lib == paged.lib == flatCache.lib == pagedCache.lib
    requires flat.store == View(paged.lib, paged.Model)
    requires AllEnd(flat.lib, flat.store, questions)
    modifies flatCache, pagedCache, paged, paged.Repr
    ensures paged.Valid() && flat.store == View(paged.lib, paged.Model)
    ensures unhandled1 == unhandled2
    ensures multiset(r1.answer) == multiset(r2.answer) && r1.ns == r2.ns && r1.extra == r2.extra
    ensures flatCache.cache == pagedCache.cache
  {
    hide PagedDnsStore.Valid, Copy, View, GetPage, OnlyLookups, ResolveAll, AllEnd, AllListed, ReplyOf, Unhandled, CacheAfter;
    ghost var results := ResolveAll(flat.lib, flat.store, flatCache.cache, questions, now);
    ghost var c1, c2;
    r1, unhandled1, c1 := FlatQuery.ProcessDNSQuery(questions, now, flat, flatCache);
    r2, unhandled2, c2 := PagedProcessDNSQuery(questions, now, paged, pagedCache);
    SameReplies(flat.lib, now, results, c1, c2);
  }

  /** A query at any time of any run, crashes and recoveries included, is
      answered from the fold of the log, and what it does to pages, list and disk
      is a number of lookup steps of that run. */
  method QueryInRun(ghost rs: seq<Replica>, ghost evs: seq<Recovery.Event>,
                    questions: seq<Question>, now: nat, s: PagedDnsStore, cache: RecordCacheStore)
    returns (r: Msg, unhandled: seq<Question>, ghost cached: seq<seq<RR>>,
             ghost rs': seq<Replica>, ghost evs': seq<Recovery.Event>)
    requires s.Valid() && s.lib == cache.lib && cache !in s.Repr
    requires s.cap >= 1 && Run(s.lib, s.cap, rs, evs) && ReloadsSettled(s.lib, rs, evs)
    requires rs[|evs|].serving && rs[|evs|].store == s.Model
    requires AllEnd(s.lib, View(s.lib, s.Model), questions)
    modifies cache, s, s.Repr
    ensures var at := rs[|evs|];
      && (at.pending.Some? ==> 1 <= at.pending.value)
      && Applied(at) <= |at.log|
      && var fold := StateAt(s.lib, at.log, Applied(at));
      && AllEnd(s.lib, fold, questions)
      && var results := ResolveAll(s.lib, fold, old(cache.cache), questions, now);
      && AllListed(s.lib, now, results, cached)
      && r.Value() == ReplyOf(results, cached)
      && unhandled == Unhandled(questions, results)
      && cache.cache == CacheAfter(old(cache.cache), results)
    ensures s.Valid() && Future(s.lib, s.cap, rs, evs, rs', evs') && ReloadsSettled(s.lib, rs', evs')
    ensures forall i | |evs| <= i < |evs'| :: evs'[i].Lookup?
    ensures rs'[|evs'|] == rs[|evs|].(store := s.Model)
  {
    hide PagedDnsStore.Valid, ReloadsSettled, View, StateAt, GetPages,
      ResolveAll, AllEnd, AllListed, ReplyOf, Unhandled, CacheAfter;
    ghost var before := s.Model;
    ServedViewIsFold(s.lib, s.cap, rs, evs, |evs|);
    r, unhandled, cached := PagedProcessDNSQuery(questions, now, s, cache);
    ghost var names :| s.Model == GetPages(s.cap, before, PagesOf(s.lib, names));
    rs', evs' := LookupsInRun(s.lib, s.cap, rs, evs, names);
    FutureReloads(s.lib, s.cap, rs, evs, rs', evs');
  }
}

/** The cache of records learned from other servers. Both stores have the same
    one; entries are keyed by the record with its TTL erased, and a lookup drops
    the entries it finds expired. Time is in nanoseconds. */
module RecordCache {
  import opened Records
  import opened Lru

  datatype CacheInfo = CacheInfo(ttl: nat, createTime: nat)

  type Infos = map<string, CacheInfo>
  type Cache = map<string, map<nat, Infos>>

  const SECOND: nat := 1_000_000_000
  const WIDTH32: nat := 0x1_0000_0000

  /** Whole seconds since `createTime`, as a 32-bit number. */
  function Age(now: nat, createTime: nat): nat {
    if now < createTime then 0 else ((now - createTime) / SECOND) % WIDTH32
  }

  function Erased(rr: RR): RR {
    rr.(ttl := 0)
  }

  function InfosAt(c: Cache, name: string, rrType: nat): Infos {
    if name in c && rrType in c[name] then c[name][rrType] else map[]
  }

  function AddTo(lib: Lib, c: Cache, rr: RR, now: nat): Cache {
    if rr.name == "." then c
    else
      var name := lib.lower(rr.name);
      var types: map<nat, Infos> := if name in c then c[name] else map[];
      c[name := types[rr.rrType :=
          InfosAt(c, name, rr.rrType)[lib.format(Erased(rr)) := CacheInfo(rr.ttl, now)]]]
  }

  predicate Live(lib: Lib, key: string, info: CacheInfo, now: nat) {
    lib.parse(key).Good? && Age(now, info.createTime) < info.ttl
  }

  function LiveInfos(lib: Lib, infos: Infos, now: nat): Infos {
    map key | key in infos && Live(lib, key, infos[key], now) :: infos[key]
  }

  function Pruned(lib: Lib, c: Cache, name: string, rrType: nat, now: nat): Cache {
    if name in c && rrType in c[name] then
      var types: map<nat, Infos> := c[name];
      c[name := types[rrType := LiveInfos(lib, types[rrType], now)]]
    else c
  }

  /** The cached record with the time it has left. */
  function Restored(lib: Lib, key: string, info: CacheInfo, now: nat): RR
    requires Live(lib, key, info, now)
  {
    lib.parse(key).rr.(ttl := info.ttl - Age(now, info.createTime))
  }

  /** `records` lists the live entries, each once, in the order of `order`. */
  ghost predicate Listing(lib: Lib, live: Infos, now: nat, order: seq<string>, records: seq<RR>) {
    && NoDup(order)
    && (forall key | key in order :: key in live && Live(lib, key, live[key], now))
    && (forall key | key in live :: key in order)
    && |records| == |order|
    && forall i | 0 <= i < |order| ::
         && order[i] in live && Live(lib, order[i], live[order[i]], now)
         && records[i] == Restored(lib, order[i], live[order[i]], now)
  }

  lemma ListingEmpty(lib: Lib, live: Infos, now: nat, order: seq<string>, records: seq<RR>)
    requires Listing(lib, live, now, order, records)
    ensures live == map[] <==> records == []
    ensures records == [] ==> order == []
  {
    if records == [] {
      assert forall key :: key !in live;
    } else {
      assert order[0] in live;
    }
  }

  class RecordCacheStore {
    const lib: Lib
    var cache: Cache

    constructor (lib: Lib)
      ensures this.lib == lib && cache == map[]
    {
      this.lib := lib;
      cache := map[];
    }

    method AddCacheRecord(rr: RR, now: nat)
      modifies this
      ensures cache == AddTo(lib, old(cache), rr, now)
    {
      if rr.name == "." {
        return;
      }
      var domainName := lib.lower(rr.name);
      var cacheMap: map<nat, Infos> := if domainName in cache then cache[domainName] else map[];
      var cacheRRs := if rr.rrType in cacheMap then cacheMap[rr.rrType] else map[];
      cacheRRs := cacheRRs[lib.format(rr.(ttl := 0)) := CacheInfo(rr.ttl, now)];
      cache := cache[domainName := cacheMap[rr.rrType := cacheRRs]];
    }

    /** One entry, with the time it has left. */
    method CheckEntry(crString: string, crInfo: CacheInfo, now: nat) returns (r: Option<RR>)
      ensures r.Some? <==> Live(lib, crString, crInfo, now)
      ensures r.Some? ==> r.value == Restored(lib, crString, crInfo, now)
    {
      var cr := lib.parse(crString);
      var timeDiff := Age(now, crInfo.createTime);
      if cr.Good? && timeDiff < crInfo.ttl {
        r := Some(cr.rr.(ttl := crInfo.ttl - timeDiff));
      } else {
        r := None;
      }
    }

    /** The entries of one name and type are visited in an arbitrary order;
        `left` are those not deleted on the way. */
    method ListLive(infos: Infos, now: nat) returns (records: seq<RR>, left: Infos, ghost order: seq<string>)
      ensures left == LiveInfos(lib, infos, now)
      ensures Listing(lib, left, now, order, records)
    {
      records, order := [], [];
      left := infos;
      var todo := infos.Keys;
      while todo != {}
        invariant todo <= infos.Keys && NoDup(order) && |records| == |order|
        invariant forall key :: key in left <==> key in infos && (key in todo || Live(lib, key, infos[key], now))
        invariant forall key | key in left :: left[key] == infos[key]
        invariant forall key :: key in order <==> key in left && key !in todo
        invariant forall i | 0 <= i < |order| ::
          order[i] in left && Live(lib, order[i], infos[order[i]], now)
          && records[i] == Restored(lib, order[i], infos[order[i]], now)
        decreases |todo|
      {
        hide Live, Restored;
        var crString :| crString in todo;
        var cr := CheckEntry(crString, infos[crString], now);
        if cr.Some? {
          records := records + [cr.value];
          order := order + [crString];
        } else {
          left := left - {crString};
        }
        todo := todo - {crString};
      }
    }

    /** Expired entries of the name and type are deleted. */
    method GetCacheRecords(domainName: string, qType: nat, now: nat)
      returns (records: seq<RR>, ghost order: seq<string>)
      modifies this
      ensures cache == Pruned(lib, old(cache), domainName, qType, now)
      ensures Listing(lib, LiveInfos(lib, InfosAt(old(cache), domainName, qType), now), now, order, records)
    {
      records, order := [], [];
      if domainName !in cache || qType !in cache[domainName] {
        return;
      }
      var cacheMap: map<nat, Infos> := cache[domainName];
      var left;
      records, left, order := ListLive(cacheMap[qType], now);
      cache := cache[domainName := cacheMap[qType := left]];
    }
  }

  // ----- agreement with the history of adds -----

  datatype CacheEvent = Added(rr: RR, time: nat) | Looked(name: string, rrType: nat, time: nat)

  function After(lib: Lib, events: seq<CacheEvent>): Cache {
    if events == [] then map[]
    else
      var c := After(lib, events[..|events| - 1]);
      match events[|events| - 1]
      case Added(rr, time) => AddTo(lib, c, rr, time)
      case Looked(name, rrType, time) => Pruned(lib, c, name, rrType, time)
  }

  predicate AddsKey(lib: Lib, e: CacheEvent, name: string, rrType: nat, key: string) {
    e.Added? && e.rr.name != "." && lib.lower(e.rr.name) == name && e.rr.rrType == rrType
    && lib.format(Erased(e.rr)) == key
  }

  /** The most recent add of a record under a name and type. */
  function LastAdd(lib: Lib, events: seq<CacheEvent>, name: string, rrType: nat, key: string): Option<CacheEvent> {
    if events == [] then None
    else
      var e := events[|events| - 1];
      if AddsKey(lib, e, name, rrType, key) then Some(e)
      else LastAdd(lib, events[..|events| - 1], name, rrType, key)
  }

  /** Times never decrease up to `now`, and all of them fit in 32 bits of
      seconds before `now`. */
  ghost predicate Clock(events: seq<CacheEvent>, now: nat) {
    && (forall i, j | 0 <= i < j < |events| :: events[i].time <= events[j].time)
    && (forall i | 0 <= i < |events| ::
          events[i].time <= now && (now - events[i].time) / SECOND < WIDTH32)
  }

  lemma AgeGrows(created: nat, t: nat, now: nat)
    requires created <= t <= now && (now - created) / SECOND < WIDTH32
    ensures Age(t, created) <= Age(now, created)
  {
  }

  /** What the cache holds under one key, against the history: if present, the
      last add; if absent, that add has expired by now. */
  ghost predicate KeyAgrees(lib: Lib, c: Cache, events: seq<CacheEvent>, now: nat,
                            name: string, rrType: nat, key: string) {
    var infos, last := InfosAt(c, name, rrType), LastAdd(lib, events, name, rrType, key);
    && (last.Some? ==> last.value.Added? && AddsKey(lib, last.value, name, rrType, key) && last.value in events)
    && (key in infos ==> last.Some? && infos[key] == CacheInfo(last.value.rr.ttl, last.value.time))
    && (last.Some? && key !in infos ==> Age(now, last.value.time) >= last.value.rr.ttl)
  }

  lemma AddInfos(lib: Lib, c: Cache, e: CacheEvent, name: string, rrType: nat, key: string)
    requires e.Added?
    ensures var infos, infos' := InfosAt(c, name, rrType), InfosAt(AddTo(lib, c, e.rr, e.time), name, rrType);
      && (AddsKey(lib, e, name, rrType, key) ==> key in infos' && infos'[key] == CacheInfo(e.rr.ttl, e.time))
      && (!AddsKey(lib, e, name, rrType, key) ==>
            (key in infos' <==> key in infos) && (key in infos ==> infos'[key] == infos[key]))
  {
  }

  lemma PruneInfos(lib: Lib, c: Cache, n: string, t: nat, time: nat, name: string, rrType: nat, key: string)
    ensures var infos, infos' := InfosAt(c, name, rrType), InfosAt(Pruned(lib, c, n, t, time), name, rrType);
      && (key in infos' ==> key in infos && infos'[key] == infos[key])
      && (key in infos && key !in infos' ==> !Live(lib, key, infos[key], time))
  {
  }

  lemma {:induction false} HistoryAgrees(lib: Lib, events: seq<CacheEvent>, now: nat,
                                         name: string, rrType: nat, key: string)
    requires lib.RoundTrips() && Clock(events, now)
    ensures KeyAgrees(lib, After(lib, events), events, now, name, rrType, key)
  {
    if events != [] {
      var n := |events| - 1;
      var before, e := events[..n], events[n];
      assert events == before + [e];
      HistoryAgrees(lib, before, now, name, rrType, key);
      var c, last := After(lib, before), LastAdd(lib, before, name, rrType, key);
      match e {
        case Added(_, _) =>
          AddInfos(lib, c, e, name, rrType, key);
        case Looked(m, t, time) =>
          PruneInfos(lib, c, m, t, time, name, rrType, key);
          if last.Some? {
            assert lib.parse(key) == Good(Erased(last.value.rr));
            var i :| 0 <= i < n && before[i] == last.value;
            assert events[i] == last.value;
            AgeGrows(last.value.time, time, now);
          }
      }
    }
  }

  /** A lookup at `now`, after any adds and pruning lookups, returns exactly the
      records of that name and type whose most recent add has not outlived its
      TTL, each once, with the time it has left. */
  lemma CacheAgreesWithHistory(lib: Lib, events: seq<CacheEvent>, now: nat, name: string, rrType: nat,
                               order: seq<string>, records: seq<RR>)
    requires lib.RoundTrips() && Clock(events, now)
    requires Listing(lib, LiveInfos(lib, InfosAt(After(lib, events), name, rrType), now), now, order, records)
    ensures NoDup(order) && |records| == |order|
    ensures forall key :: key in order <==>
      var last := LastAdd(lib, events, name, rrType, key);
      last.Some? && last.value.Added? && Age(now, last.value.time) < last.value.rr.ttl
    ensures forall i | 0 <= i < |order| ::
      var last := LastAdd(lib, events, name, rrType, order[i]);
      && last.Some? && last.value.Added?
      && Age(now, last.value.time) < last.value.rr.ttl
      && records[i] == last.value.rr.(ttl := last.value.rr.ttl - Age(now, last.value.time))
  {
    var live := LiveInfos(lib, InfosAt(After(lib, events), name, rrType), now);
    forall key: string
      ensures KeyAgrees(lib, After(lib, events), events, now, name, rrType, key)
      ensures var last := LastAdd(lib, events, name, rrType, key);
        last.Some? ==> last.value.Added? && lib.parse(key) == Good(Erased(last.value.rr))
    {
      HistoryAgrees(lib, events, now, name, rrType, key);
    }
    assert forall key :: key in order <==> key in live;
  }

  /** Under a clock, an age is the number of whole seconds that have gone by. */
  lemma AgeInSeconds(now: nat, created: nat, ttl: nat)
    requires created <= now && (now - created) / 1_000_000_000 < 0x1_0000_0000
    ensures Age(now, created) == (now - created) / 1_000_000_000
    ensures Age(now, created) < ttl <==> now - created < ttl * 1_000_000_000
  {
  }

  /** Event `i` adds a record under a name and type, and no later event adds it
      again, with whatever TTL. The root is never cached. */
  ghost predicate AddedLast(lib: Lib, events: seq<CacheEvent>, i: nat, name: string, rrType: nat)
    requires i < |events|
  {
    && events[i].Added?
    && events[i].rr.name != "." && lib.lower(events[i].rr.name) == name && events[i].rr.rrType == rrType
    && forall j | i < j < |events| && events[j].Added? :: events[j].rr.(ttl := 0) != events[i].rr.(ttl := 0)
  }

  lemma {:induction false} LastAddFound(lib: Lib, events: seq<CacheEvent>, name: string, rrType: nat, key: string)
    returns (i: nat)
    requires lib.RoundTrips() && LastAdd(lib, events, name, rrType, key).Some?
    ensures i < |events| && LastAdd(lib, events, name, rrType, key).value == events[i]
    ensures AddedLast(lib, events, i, name, rrType) && key == lib.format(events[i].rr.(ttl := 0))
  {
    var n := |events| - 1;
    if AddsKey(lib, events[n], name, rrType, key) {
      i := n;
    } else {
      i := LastAddFound(lib, events[..n], name, rrType, key);
      assert lib.parse(key) == Good(events[i].rr.(ttl := 0));
      forall j | i < j < |events| && events[j].Added?
        ensures events[j].rr.(ttl := 0) != events[i].rr.(ttl := 0)
      {
        assert j < n ==> events[..n][j] == events[j];
      }
    }
  }

  lemma {:induction false} AddedLastFound(lib: Lib, events: seq<CacheEvent>, name: string, rrType: nat, i: nat)
    requires lib.RoundTrips() && i < |events| && AddedLast(lib, events, i, name, rrType)
    ensures LastAdd(lib, events, name, rrType, lib.format(events[i].rr.(ttl := 0))) == Some(events[i])
  {
    var n := |events| - 1;
    var key := lib.format(events[i].rr.(ttl := 0));
    assert lib.parse(key) == Good(events[i].rr.(ttl := 0));
    if i < n {
      if events[n].Added? {
        assert lib.parse(lib.format(Erased(events[n].rr))) == Good(events[n].rr.(ttl := 0));
      }
      AddedLastFound(lib, events[..n], name, rrType, i);
    }
  }

  /** `r` is what is left of the record that event `i` added. */
  ghost predicate LeftOf(events: seq<CacheEvent>, i: nat, now: nat, r: RR)
    requires i < |events|
  {
    && events[i].Added? && events[i].time <= now && now - events[i].time < events[i].rr.ttl * 1_000_000_000
    && r == events[i].rr.(ttl := events[i].rr.ttl - (now - events[i].time) / 1_000_000_000)
  }

  lemma YoungAdd(events: seq<CacheEvent>, i: nat, now: nat)
    requires Clock(events, now) && i < |events| && events[i].Added?
    ensures var e := events[i];
      && Age(now, e.time) == (now - e.time) / 1_000_000_000
      && (Age(now, e.time) < e.rr.ttl <==> e.time <= now && now - e.time < e.rr.ttl * 1_000_000_000)
  {
    AgeInSeconds(now, events[i].time, events[i].rr.ttl);
  }

  lemma SameRecordSameKey(lib: Lib, events: seq<CacheEvent>, name: string, rrType: nat, key: string, key': string)
    requires lib.RoundTrips() && key != key'
    requires LastAdd(lib, events, name, rrType, key).Some? && LastAdd(lib, events, name, rrType, key').Some?
    ensures lib.parse(key).Good? && lib.parse(key) != lib.parse(key')
  {
    var i := LastAddFound(lib, events, name, rrType, key);
    var j := LastAddFound(lib, events, name, rrType, key');
  }

  /** What a listing holds for one of its keys. */
  lemma ListedIsLeft(lib: Lib, events: seq<CacheEvent>, now: nat, name: string, rrType: nat,
                     order: seq<string>, records: seq<RR>, k: nat) returns (i: nat)
    requires lib.RoundTrips() && Clock(events, now) && k < |records|
    requires Listing(lib, LiveInfos(lib, InfosAt(After(lib, events), name, rrType), now), now, order, records)
    ensures i < |events| && AddedLast(lib, events, i, name, rrType) && LeftOf(events, i, now, records[k])
    ensures LastAdd(lib, events, name, rrType, order[k]).Some?
    ensures lib.parse(order[k]) == Good(records[k].(ttl := 0))
  {
    hide After, LiveInfos, InfosAt, Listing, Age;
    CacheAgreesWithHistory(lib, events, now, name, rrType, order, records);
    i := LastAddFound(lib, events, name, rrType, order[k]);
    YoungAdd(events, i, now);
    assert records[k].(ttl := 0) == events[i].rr.(ttl := 0);
  }

  /** Each young add is in the listing. */
  lemma LeftIsListed(lib: Lib, events: seq<CacheEvent>, now: nat, name: string, rrType: nat,
                     order: seq<string>, records: seq<RR>, i: nat, r: RR)
    requires lib.RoundTrips() && Clock(events, now)
    requires Listing(lib, LiveInfos(lib, InfosAt(After(lib, events), name, rrType), now), now, order, records)
    requires i < |events| && AddedLast(lib, events, i, name, rrType) && LeftOf(events, i, now, r)
    ensures r in records
  {
    hide After, LiveInfos, InfosAt, Listing, Age, AddedLast;
    CacheAgreesWithHistory(lib, events, now, name, rrType, order, records);
    AddedLastFound(lib, events, name, rrType, i);
    YoungAdd(events, i, now);
    var key := lib.format(events[i].rr.(ttl := 0));
    assert key in order;
    var k :| 0 <= k < |order| && order[k] == key;
    assert records[k] == r;
  }

  /** In nanoseconds, from the events alone: a lookup at `now` gives each record
      whose last add is less than its TTL ago, and no other, with the whole
      seconds gone by taken off its TTL; and no record twice. */
  lemma CacheIsRecentAdds(lib: Lib, events: seq<CacheEvent>, now: nat, name: string, rrType: nat,
                          order: seq<string>, records: seq<RR>)
    requires lib.RoundTrips() && Clock(events, now)
    requires Listing(lib, LiveInfos(lib, InfosAt(After(lib, events), name, rrType), now), now, order, records)
    ensures forall r :: r in records <==>
      exists i :: 0 <= i < |events| && AddedLast(lib, events, i, name, rrType) && LeftOf(events, i, now, r)
    ensures forall k, l | 0 <= k < l < |records| :: records[k].(ttl := 0) != records[l].(ttl := 0)
  {
    hide After, LiveInfos, InfosAt, AddedLast, LeftOf, LastAdd, Live, Restored;
    forall r
      ensures r in records <==>
        exists i :: 0 <= i < |events| && AddedLast(lib, events, i, name, rrType) && LeftOf(events, i, now, r)
    {
      if r in records {
        var k :| 0 <= k < |records| && records[k] == r;
        var i := ListedIsLeft(lib, events, now, name, rrType, order, records, k);
      }
      if i :| 0 <= i < |events| && AddedLast(lib, events, i, name, rrType) && LeftOf(events, i, now, r) {
        LeftIsListed(lib, events, now, name, rrType, order, records, i, r);
      }
    }
    forall k, l | 0 <= k < l < |records|
      ensures records[k].(ttl := 0) != records[l].(ttl := 0)
    {
      var i := ListedIsLeft(lib, events, now, name, rrType, order, records, k);
      var j := ListedIsLeft(lib, events, now, name, rrType, order, records, l);
      SameRecordSameKey(lib, events, name, rrType, order[k], order[l]);
    }
  }

  /** A lookup deletes the entries of its name and type that have outlived their
      TTL, and no other entry. */
  lemma PrunesExpired(lib: Lib, c: Cache, name: string, rrType: nat, now: nat, n: string, t: nat, key: string)
    requires key in InfosAt(c, n, t) ==>
      var created := InfosAt(c, n, t)[key].createTime;
      created <= now && (now - created) / 1_000_000_000 < 0x1_0000_0000
    ensures var infos, infos' := InfosAt(c, n, t), InfosAt(Pruned(lib, c, name, rrType, now), n, t);
      && (key in infos' <==>
            && key in infos
            && (n == name && t == rrType ==>
                  lib.parse(key).Good? && now - infos[key].createTime < infos[key].ttl * 1_000_000_000))
      && (key in infos' ==> infos'[key] == infos[key])
  {
    if key in InfosAt(c, n, t) {
      AgeInSeconds(now, InfosAt(c, n, t)[key].createTime, InfosAt(c, n, t)[key].ttl);
    }
  }

  /** Dropping expired entries on an earlier lookup changes no later answer. */
  lemma PruningInvisible(lib: Lib, c: Cache, m: string, t: nat, time: nat, now: nat, name: string, rrType: nat)
    requires time <= now
    requires forall key | key in InfosAt(c, name, rrType) ::
      var created := InfosAt(c, name, rrType)[key].createTime;
      created <= time && (now - created) / SECOND < WIDTH32
    ensures LiveInfos(lib, InfosAt(Pruned(lib, c, m, t, time), name, rrType), now)
         == LiveInfos(lib, InfosAt(c, name, rrType), now)
  {
    forall key: string
      ensures var infos, infos' := InfosAt(c, name, rrType), InfosAt(Pruned(lib, c, m, t, time), name, rrType);
        && (key in infos' ==> key in infos && infos'[key] == infos[key])
        && (key in infos && key !in infos' ==> !Live(lib, key, infos[key], now))
    {
      PruneInfos(lib, c, m, t, time, name, rrType, key);
      var infos := InfosAt(c, name, rrType);
      if key in infos {
        AgeGrows(infos[key].createTime, time, now);
      }
    }
  }
}

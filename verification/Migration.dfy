/** Moving records to a new cluster: the source serves the records of its
    `index`-th name, the new cluster asks for index 0, 1, 2 ... until done. */
module Migration {
  import opened Records
  import opened FlatStore
  import opened Lru
  import opened Permutation

  const DONE := "Done"

  datatype Response = Strings(strs: seq<string>) | Crash

  /** `order` lists a finite set, each element once. */
  ghost predicate Enumerates<T>(order: seq<T>, s: set<T>) {
    NoDup(order) && (forall x | x in order :: x in s) && forall x | x in s :: x in order
  }

  /** Nothing was collected before, or it begins with all the names. */
  ghost predicate BeginsRight(prior: seq<string>, names: set<string>) {
    prior == [] || (|names| <= |prior| && Enumerates(prior[..|names|], names))
  }

  lemma {:induction false} EnumerationSize<T>(order: seq<T>, s: set<T>)
    requires Enumerates(order, s)
    ensures |order| == |s|
  {
    if order == [] {
      assert s == {};
    } else {
      var n := |order| - 1;
      assert order == order[..n] + [order[n]];
      EnumerationSize(order[..n], s - {order[n]});
    }
  }

  /** Map iteration: the keys in some order. */
  method Enumerate<T(==)>(s: set<T>) returns (order: seq<T>)
    ensures Enumerates(order, s)
  {
    order := [];
    var todo := s;
    while todo != {}
      invariant todo <= s && Enumerates(order, s - todo)
      decreases |todo|
    {
      var x :| x in todo;
      order := order + [x];
      todo := todo - {x};
    }
  }

  function TypeStrings(store: Store, name: string): nat -> seq<string> {
    t => if name in store && t in store[name] then store[name][t] else []
  }

  /** `strs` are all strings of a name that moves, its types in some order; a
      name that stays has none. */
  ghost predicate Served(store: Store, locate: string -> string, newToken: string, name: string, strs: seq<string>) {
    if locate(name) == newToken && name in store then
      exists types :: Enumerates(types, store[name].Keys) && strs == Join(TypeStrings(store, name), types)
    else strs == []
  }

  /** The strings of a name that moves, types listed in a fixed order. */
  ghost function Moved(store: Store, locate: string -> string, newToken: string): string -> seq<string> {
    name =>
      if locate(name) == newToken && name in store then Join(TypeStrings(store, name), SomeOrder(store[name].Keys))
      else []
  }

  ghost function SomeOrder<T>(s: set<T>): (order: seq<T>)
    ensures Enumerates(order, s)
  {
    if s == {} then []
    else
      var x :| x in s;
      SomeOrder(s - {x}) + [x]
  }

  lemma ServedIsMoved(store: Store, locate: string -> string, newToken: string, name: string, strs: seq<string>)
    requires Served(store, locate, newToken, name, strs)
    ensures multiset(strs) == multiset(Moved(store, locate, newToken)(name))
  {
    if locate(name) == newToken && name in store {
      var types :| Enumerates(types, store[name].Keys) && strs == Join(TypeStrings(store, name), types);
      SameElements(types, SomeOrder(store[name].Keys));
      JoinPermutation(TypeStrings(store, name), types, SomeOrder(store[name].Keys));
    }
  }

  // ----- counting strings -----

  ghost function Positions<B(!new)>(s: seq<B>, y: B): set<nat> {
    set i: nat | i < |s| && s[i] == y
  }

  lemma {:induction false} CountPositions<B(!new)>(s: seq<B>, y: B)
    ensures multiset(s)[y] == |Positions(s, y)|
  {
    if s == [] {
      assert Positions(s, y) == {};
    } else {
      var n := |s| - 1;
      CountPositions(s[..n], y);
      assert s == s[..n] + [s[n]];
      var front := Positions(s[..n], y);
      assert Positions(s, y) == if s[n] == y then front + {n} else front;
    }
  }

  ghost function Pairs<A(!new), C(!new)>(order: seq<A>, g: A -> set<C>): set<(A, C)> {
    set a, c | a in order && c in g(a) :: (a, c)
  }

  /** Counting in a join: each part counted by a set, all together by the pairs. */
  lemma {:induction false} CountJoin<A(!new), B, C(!new)>(f: A -> seq<B>, order: seq<A>, y: B, g: A -> set<C>)
    requires NoDup(order) && forall a | a in order :: multiset(f(a))[y] == |g(a)|
    ensures multiset(Join(f, order))[y] == |Pairs(order, g)|
  {
    if order == [] {
      assert Pairs(order, g) == {};
    } else {
      var n := |order| - 1;
      var last := order[n];
      assert order == order[..n] + [last];
      CountJoin(f, order[..n], y, g);
      var front := Pairs(order[..n], g);
      var here := set c | c in g(last) :: (last, c);
      PairedSize(last, g(last));
      assert Pairs(order, g) == front + here && front !! here;
    }
  }

  lemma {:induction false} PairedSize<A, C>(a: A, s: set<C>)
    ensures |set c | c in s :: (a, c)| == |s|
  {
    var paired := set c | c in s :: (a, c);
    if x :| x in s {
      PairedSize(a, s - {x});
      assert paired == (set c | c in s - {x} :: (a, c)) + {(a, x)};
    } else {
      assert paired == {};
    }
  }

  /** Where a string is stored under one name: type and position. */
  ghost function PlacesUnder(types: TypeMap, y: string): set<(nat, nat)> {
    set t, i: nat | t in types && i < |types[t]| && types[t][i] == y :: (t, i)
  }

  /** Where it is stored under the names that move: name, type and position. */
  ghost function PlacesMoving(store: Store, locate: string -> string, newToken: string, y: string): set<(string, (nat, nat))> {
    set n, t, i: nat | n in store && locate(n) == newToken && t in store[n] && i < |store[n][t]| && store[n][t][i] == y ::
      (n, (t, i))
  }

  ghost function PositionsOf(store: Store, name: string, y: string): nat -> set<nat> {
    t => if name in store && t in store[name] then Positions(store[name][t], y) else {}
  }

  lemma CountOfType(store: Store, name: string, t: nat, y: string)
    requires name in store && t in store[name]
    ensures multiset(TypeStrings(store, name)(t))[y] == |PositionsOf(store, name, y)(t)|
  {
    CountPositions(store[name][t], y);
  }

  lemma UnderPairs(store: Store, name: string, types: seq<nat>, y: string)
    requires name in store && Enumerates(types, store[name].Keys)
    ensures PlacesUnder(store[name], y) == Pairs(types, PositionsOf(store, name, y))
  {
    var under, pairs := PlacesUnder(store[name], y), Pairs(types, PositionsOf(store, name, y));
    forall q
      ensures q in under <==> q in pairs
    {
      if q in under {
        assert q.0 in types && q.1 in PositionsOf(store, name, y)(q.0);
      }
    }
  }

  lemma CountUnder(store: Store, name: string, types: seq<nat>, y: string)
    requires name in store && Enumerates(types, store[name].Keys)
    ensures multiset(Join(TypeStrings(store, name), types))[y] == |PlacesUnder(store[name], y)|
  {
    hide Join, TypeStrings, PositionsOf, PlacesUnder, Pairs;
    forall t | t in types
      ensures multiset(TypeStrings(store, name)(t))[y] == |PositionsOf(store, name, y)(t)|
    {
      CountOfType(store, name, t, y);
    }
    CountJoin(TypeStrings(store, name), types, y, PositionsOf(store, name, y));
    UnderPairs(store, name, types, y);
  }

  ghost function PlacesOf(store: Store, locate: string -> string, newToken: string, y: string): string -> set<(nat, nat)> {
    n => if n in store && locate(n) == newToken then PlacesUnder(store[n], y) else {}
  }

  lemma CountOfName(store: Store, locate: string -> string, newToken: string, n: string, y: string)
    ensures multiset(Moved(store, locate, newToken)(n))[y] == |PlacesOf(store, locate, newToken, y)(n)|
  {
    hide PlacesUnder, Join, TypeStrings;
    if n in store && locate(n) == newToken {
      CountUnder(store, n, SomeOrder(store[n].Keys), y);
    }
  }

  lemma MovingPairs(store: Store, locate: string -> string, newToken: string, order: seq<string>, y: string)
    requires Enumerates(order, store.Keys)
    ensures PlacesMoving(store, locate, newToken, y) == Pairs(order, PlacesOf(store, locate, newToken, y))
  {
    var moving, pairs := PlacesMoving(store, locate, newToken, y), Pairs(order, PlacesOf(store, locate, newToken, y));
    forall q
      ensures q in moving <==> q in pairs
    {
      if q in moving {
        assert q.0 in order && q.1 in PlacesOf(store, locate, newToken, y)(q.0);
      }
    }
  }

  /** Fetching every name once gives each string exactly as often as it is stored
      under a name that moves. */
  lemma CountMoving(store: Store, locate: string -> string, newToken: string, order: seq<string>, y: string)
    requires Enumerates(order, store.Keys)
    ensures multiset(Join(Moved(store, locate, newToken), order))[y] == |PlacesMoving(store, locate, newToken, y)|
  {
    hide Join, Moved, PlacesOf, PlacesMoving, Pairs;
    forall n { CountOfName(store, locate, newToken, n, y); }
    CountJoin(Moved(store, locate, newToken), order, y, PlacesOf(store, locate, newToken, y));
    MovingPairs(store, locate, newToken, order, y);
  }

  /** The source node while its store does not change. */
  class Source {
    const store: Store
    const locate: string -> string
    const newToken: string
    /** Names collected so far; never cleared. */
    var domainNames: seq<string>

    constructor (store: Store, locate: string -> string, newToken: string, domainNames: seq<string>)
      ensures this.store == store && this.locate == locate && this.newToken == newToken
      ensures this.domainNames == domainNames
    {
      this.store, this.locate, this.newToken, this.domainNames := store, locate, newToken, domainNames;
    }

    /** The record request. An index that has no name yet, or a negative one,
        makes the handler panic. */
    method GetRecord(index: int) returns (r: Response)
      modifies this
      ensures index >= |store| ==> r == Strings([DONE]) && domainNames == old(domainNames)
      ensures index != 0 ==> domainNames == old(domainNames)
      ensures index == 0 < |store| ==>
        |domainNames| == |old(domainNames)| + |store|
        && domainNames[..|old(domainNames)|] == old(domainNames)
        && Enumerates(domainNames[|old(domainNames)|..], store.Keys)
      ensures index < |store| ==>
        (r == Crash <==> !(0 <= index < |domainNames|))
        && (r.Strings? ==> Served(store, locate, newToken, domainNames[index], r.strs))
      ensures 0 <= index < |store| && index < |domainNames| ==>
        && r.Strings?
        && var n := domainNames[index];
        && (locate(n) != newToken || n !in store ==> r.strs == [])
        && (locate(n) == newToken && n in store ==> forall y :: multiset(r.strs)[y] == |PlacesUnder(store[n], y)|)
    {
      if index >= |store| {
        return Strings([DONE]);
      }
      if index == 0 {
        var order := Enumerate(store.Keys);
        EnumerationSize(order, store.Keys);
        domainNames := domainNames + order;
      }
      if index < 0 || index >= |domainNames| {
        return Crash;
      }
      var domain := domainNames[index];
      var records := [];
      if locate(domain) == newToken && domain in store {
        var types := Enumerate(store[domain].Keys);
        for i := 0 to |types|
          invariant records == Join(TypeStrings(store, domain), types[..i])
        {
          assert types[..i + 1][..i] == types[..i];
          assert types[i] in types;
          records := records + store[domain][types[i]];
        }
        assert types[..|types|] == types;
        forall y { CountUnder(store, domain, types, y); }
      }
      r := Strings(records);
    }
  }

  lemma AllProposed(store: Store, locate: string -> string, newToken: string, prior: seq<string>, order: seq<string>)
    requires Enumerates(order, store.Keys)
    ensures BeginsRight(prior, store.Keys) ==>
      forall y :: multiset(Join(Moved(store, locate, newToken), Visited(prior, order)))[y]
        == |PlacesMoving(store, locate, newToken, y)|
  {
    hide Moved, Join, PlacesMoving;
    if BeginsRight(prior, store.Keys) {
      MigrationExact(store, locate, newToken, prior, order);
      forall y { CountMoving(store, locate, newToken, SomeOrder(store.Keys), y); }
    }
  }

  /** The strings proposed when the end marker comes. */
  lemma Proposals(store: Store, locate: string -> string, newToken: string, prior: seq<string>, order: seq<string>,
                  names: seq<string>, counter: nat, proposed: seq<string>)
    requires Enumerates(order, store.Keys) && names == prior + order && counter == |order|
    requires multiset(proposed) == multiset(Join(Moved(store, locate, newToken), names[..counter]))
    ensures multiset(proposed) == multiset(Join(Moved(store, locate, newToken), Visited(prior, order)))
    ensures BeginsRight(prior, store.Keys) ==>
      forall y :: multiset(proposed)[y] == |PlacesMoving(store, locate, newToken, y)|
  {
    hide Moved, Join, PlacesMoving;
    AllProposed(store, locate, newToken, prior, order);
  }

  datatype FetchResult = Fetched(proposed: seq<string>, requests: nat) | BadRecord | SourceCrash

  /** Every stored string is a record; the end marker is not one. */
  ghost predicate AllRecords(lib: Lib, store: Store) {
    && !lib.parse(DONE).Good?
    && forall n, t, s | n in store && t in store[n] && s in store[n][t] :: lib.parse(s).Good?
  }

  lemma {:induction false} JoinOnly<A, B>(f: A -> seq<B>, s: seq<A>, x: B) returns (a: A)
    requires x in Join(f, s)
    ensures a in s && x in f(a)
  {
    var n := |s| - 1;
    assert s == s[..n] + [s[n]];
    if x in f(s[n]) {
      a := s[n];
    } else {
      a := JoinOnly(f, s[..n], x);
    }
  }

  lemma ServedRecords(lib: Lib, store: Store, locate: string -> string, newToken: string, name: string, strs: seq<string>)
    requires AllRecords(lib, store) && Served(store, locate, newToken, name, strs)
    ensures forall s | s in strs :: lib.parse(s).Good?
    ensures strs != [DONE]
  {
    if locate(name) == newToken && name in store {
      var types :| Enumerates(types, store[name].Keys) && strs == Join(TypeStrings(store, name), types);
      forall s | s in strs
        ensures lib.parse(s).Good?
      {
        var t := JoinOnly(TypeStrings(store, name), types, s);
      }
    }
    assert strs == [DONE] ==> DONE in strs;
  }

  method AllValid(lib: Lib, strs: seq<string>) returns (ok: bool)
    ensures ok <==> forall s | s in strs :: lib.parse(s).Good?
  {
    for i := 0 to |strs|
      invariant forall k | 0 <= k < i :: lib.parse(strs[k]).Good?
    {
      if !lib.parse(strs[i]).Good? {
        assert strs[i] in strs;
        return false;
      }
    }
    ok := true;
  }

  datatype Round = Finished | Got(strs: seq<string>) | BadRound | CrashedRound

  /** One request of the new cluster, with the checks on what comes back. */
  method FetchOne(lib: Lib, source: Source, counter: nat) returns (round: Round)
    requires AllRecords(lib, source.store) && counter <= |source.store|
    requires 0 < counter < |source.store| ==> counter < |source.domainNames|
    modifies source
    ensures round == Finished <==> counter == |source.store|
    ensures round == Finished || round.Got?
    ensures 0 < counter || |source.store| == 0 ==> source.domainNames == old(source.domainNames)
    ensures counter == 0 < |source.store| ==>
      exists order :: Enumerates(order, source.store.Keys) && source.domainNames == old(source.domainNames) + order
    ensures counter < |source.store| ==> counter < |source.domainNames|
    ensures counter < |source.store| ==>
      multiset(round.strs)
        == multiset(Moved(source.store, source.locate, source.newToken)(source.domainNames[counter]))
  {
    hide Served, AllRecords, Moved, Enumerates;
    ghost var prior := source.domainNames;
    var response := source.GetRecord(counter);
    if counter == 0 < |source.store| {
      assert source.domainNames == prior + source.domainNames[|prior|..];
    }
    if response.Crash? {
      return CrashedRound;
    }
    if counter < |source.store| {
      var name := source.domainNames[counter];
      ServedRecords(lib, source.store, source.locate, source.newToken, name, response.strs);
      ServedIsMoved(source.store, source.locate, source.newToken, name, response.strs);
    }
    if |response.strs| == 1 && response.strs[0] == DONE {
      assert response.strs == [DONE];
      return Finished;
    }
    var ok := AllValid(lib, response.strs);
    round := if ok then Got(response.strs) else BadRound;
  }

  /** The fetch loop: ask for one index after the other, propose what comes, stop
      at the end marker. It is served the first names of those the source had
      collected before and has collected now. */
  method RetrieveRR(lib: Lib, source: Source) returns (r: FetchResult, ghost order: seq<string>)
    requires AllRecords(lib, source.store)
    modifies source
    ensures Enumerates(order, source.store.Keys)
    ensures source.domainNames == old(source.domainNames) + order
    ensures r.Fetched? && r.requests == |source.store| + 1
    ensures |order| == |source.store| && multiset(r.proposed)
         == multiset(Join(Moved(source.store, source.locate, source.newToken),
                          Visited(old(source.domainNames), order)))
    ensures BeginsRight(old(source.domainNames), source.store.Keys) ==>
      forall y :: multiset(r.proposed)[y] == |PlacesMoving(source.store, source.locate, source.newToken, y)|
  {
    hide AllRecords, Moved, Join, Enumerates, PlacesMoving, Visited, BeginsRight;
    var n := |source.store|;
    ghost var prior, f := source.domainNames, Moved(source.store, source.locate, source.newToken);
    NothingToList(source.store.Keys);
    NothingJoined(f);
    var proposed: seq<string>, counter: nat := [], 0;
    order := [];
    while true
      invariant counter <= n
      invariant source.domainNames == prior + order
      invariant if counter == 0 then order == [] && proposed == []
                else |order| == n && Enumerates(order, source.store.Keys)
      invariant multiset(proposed) == multiset(Join(f, source.domainNames[..counter]))
      decreases n - counter
    {
      var round := FetchOne(lib, source, counter);
      if counter == 0 < n {
        order :| Enumerates(order, source.store.Keys) && source.domainNames == prior + order;
        EnumerationSize(order, source.store.Keys);
      }
      match round {
        case Finished =>
          r := Fetched(proposed, counter + 1);
          Proposals(source.store, source.locate, source.newToken, prior, order, source.domainNames, counter, proposed);
          return;
        case BadRound =>
          return BadRecord, [];
        case CrashedRound =>
          return SourceCrash, [];
        case Got(records) =>
          JoinMore(f, source.domainNames, counter);
          proposed := proposed + records;
      }
      counter := counter + 1;
    }
  }

  lemma NothingToList<T>(s: set<T>)
    ensures s == {} ==> Enumerates([], s)
  {
  }

  lemma NothingJoined<A, B>(f: A -> seq<B>)
    ensures Join(f, []) == []
  {
  }

  lemma JoinMore<A, B>(f: A -> seq<B>, s: seq<A>, k: nat)
    requires k < |s|
    ensures Join(f, s[..k + 1]) == Join(f, s[..k]) + f(s[k])
    ensures k == 0 ==> Join(f, s[..1]) == f(s[0])
  {
    assert s[..k + 1][..k] == s[..k];
  }

  /** The names a fetch is served: the first ones of all collected. */
  function Visited(prior: seq<string>, order: seq<string>): seq<string> {
    (prior + order)[..|order|]
  }

  /** A migration proposes exactly the records of the names that move, each as
      often as it is stored, when nothing was collected before or what was
      collected begins with all the names now stored. */
  lemma MigrationExact(store: Store, locate: string -> string, newToken: string, prior: seq<string>, order: seq<string>)
    requires Enumerates(order, store.Keys)
    requires BeginsRight(prior, store.Keys)
    ensures multiset(Join(Moved(store, locate, newToken), Visited(prior, order)))
         == multiset(Join(Moved(store, locate, newToken), SomeOrder(store.Keys)))
  {
    hide Moved, Join;
    EnumerationSize(order, store.Keys);
    var v := Visited(prior, order);
    assert v == if prior == [] then order else prior[..|store.Keys|];
    SameElements(v, SomeOrder(store.Keys));
    JoinPermutation(Moved(store, locate, newToken), v, SomeOrder(store.Keys));
  }

  /** Names are collected again on every migration and never cleared. A fetch is
      served every stored name once, whatever the iteration order, exactly when
      nothing was collected before or what was collected begins with all the
      names now stored. */
  lemma ExactIff(prior: seq<string>, names: set<string>)
    ensures (forall order | Enumerates(order, names) :: Enumerates(Visited(prior, order), names))
      <==> BeginsRight(prior, names)
  {
    forall order | Enumerates(order, names)
      ensures |order| == |names|
      ensures prior == [] ==> Visited(prior, order) == order
      ensures |names| <= |prior| ==> Visited(prior, order) == prior[..|names|]
    {
      EnumerationSize(order, names);
    }
    var some := SomeOrder(names);
    assert Enumerates(some, names);
    if prior != [] && |prior| < |names| {
      StalePrefixRepeats(prior, names);
    }
  }

  lemma StalePrefixRepeats(prior: seq<string>, names: set<string>)
    requires 0 < |prior| < |names|
    ensures exists order :: Enumerates(order, names) && !Enumerates(Visited(prior, order), names)
  {
    var first := prior[0];
    if first in names {
      var order := [first] + SomeOrder(names - {first});
      EnumerationSize(order, names);
      var v := Visited(prior, order);
      assert v[0] == first && v[|prior|] == first;
      assert Enumerates(order, names) && !Enumerates(v, names);
    } else {
      var order := SomeOrder(names);
      EnumerationSize(order, names);
      var v := Visited(prior, order);
      assert v[0] == first;
      assert first in v;
      assert Enumerates(order, names) && !Enumerates(v, names);
    }
  }

  /** A second migration, after one name was replaced by another, asks for the
      name that is gone and misses the new one. */
  lemma SecondMigrationMisses(store: Store, gone: string, added: string, tm: TypeMap)
    requires gone != added && store == map[added := tm]
    ensures Visited([gone], [added]) == [gone]
    ensures Enumerates([added], store.Keys) && !Enumerates(Visited([gone], [added]), store.Keys)
  {
    assert Visited([gone], [added])[0] == gone;
    assert gone in Visited([gone], [added]);
  }

  lemma NothingServed(store: Store, locate: string -> string, newToken: string, gone: string, order: seq<string>)
    requires gone !in store && |order| == 1
    ensures Join(Moved(store, locate, newToken), Visited([gone], order)) == []
  {
    var v := Visited([gone], order);
    assert v == [gone] && v[..0] == [];
  }

  /** The records of a name that was stored after the first migration are not
      proposed by the second one, although the name moves. */
  method SecondMigrationLosesRecords(lib: Lib, source: Source, gone: string, added: string, rrType: nat, str: string)
    returns (r: FetchResult)
    requires AllRecords(lib, source.store) && source.domainNames == [gone] && gone != added
    requires source.store == map[added := map[rrType := [str]]] && source.locate(added) == source.newToken
    modifies source
    ensures str in source.store[added][rrType] && source.locate(added) == source.newToken
    ensures r.Fetched? && r.requests == 2 && str !in r.proposed
  {
    hide AllRecords, Join, Moved, Enumerates, Visited;
    ghost var order;
    r, order := RetrieveRR(lib, source);
    assert source.store.Keys == {added} && |source.store| == 1;
    NothingServed(source.store, source.locate, source.newToken, gone, order);
    assert str !in multiset(r.proposed);
  }
}

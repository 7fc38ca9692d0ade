/** Query resolution against a store: exact match, CNAME chase, cache, zone
    border with glue, wildcards; in this order, as the program tries them. */
module Resolve {
  import opened Records
  import opened FlatStore
  import opened RecordCache
  import opened Chase
  import opened Permutation

  // ----- names -----

  function FirstDot(s: string, i: nat): (r: nat)
    requires i <= |s|
    ensures i <= r <= |s|
    ensures forall j | i <= j < r :: s[j] != '.'
    ensures r < |s| ==> s[r] == '.'
    decreases |s| - i
  {
    if i == |s| || s[i] == '.' then i else FirstDot(s, i + 1)
  }

  /** `a.com` to `(a, com)`; an empty first part means nothing can be popped. */
  function PopLeftmostLabel(domain: string): (r: (string, string))
    ensures r.0 != "" ==> domain == r.0 + "." + r.1 && '.' !in r.0
    ensures r.0 == "" <==> domain == "" || '.' !in domain || domain[0] == '.'
    ensures r.0 == "" ==> domain == if '.' in domain then "." + r.1 else r.1
  {
    var i := FirstDot(domain, 0);
    if i == |domain| then ("", domain) else (domain[..i], domain[i + 1..])
  }

  /** The names left after popping one label, two labels, and so on, until an
      empty label: from the longest to the shortest. */
  function Ancestors(name: string): seq<string>
    decreases |name|
  {
    var (first, rest) := PopLeftmostLabel(name);
    if first == "" then [] else [rest] + Ancestors(rest)
  }

  // ----- stored records -----

  /** The records among the strings that parse, in order. */
  function GoodRecords(lib: Lib, strs: seq<string>): seq<RR> {
    if strs == [] then []
    else
      var n := |strs| - 1;
      var p := lib.parse(strs[n]);
      GoodRecords(lib, strs[..n]) + if p.Good? then [p.rr] else []
  }

  /** If all strings parse, each gives its record, in its place. */
  lemma {:induction false} AllParse(lib: Lib, strs: seq<string>)
    requires forall i | 0 <= i < |strs| :: lib.parse(strs[i]).Good?
    ensures |GoodRecords(lib, strs)| == |strs|
    ensures forall i | 0 <= i < |strs| :: lib.parse(strs[i]) == Good(GoodRecords(lib, strs)[i])
  {
    if strs != [] {
      AllParse(lib, strs[..|strs| - 1]);
    }
  }

  ghost predicate Parseable(lib: Lib, strs: seq<string>) {
    strs != [] && forall i | 0 <= i < |strs| :: lib.parse(strs[i]).Good?
  }

  /** From position `before` on, the answer is the records of the strings. */
  ghost predicate AllAnswered(lib: Lib, strs: seq<string>, before: seq<RR>, answer: seq<RR>) {
    && |answer| == |before| + |strs| && answer[..|before|] == before
    && forall i | 0 <= i < |strs| :: lib.parse(strs[i]) == Good(answer[|before| + i])
  }

  lemma ExactAnswered(lib: Lib, s: Store, name: string, rrType: nat, before: seq<RR>)
    requires Parseable(lib, StringsOf(s, name, rrType))
    ensures RecordsOf(lib, s, name, rrType) != []
    ensures AllAnswered(lib, StringsOf(s, name, rrType), before, before + RecordsOf(lib, s, name, rrType))
  {
    hide GoodRecords, StringsOf;
    AllParse(lib, StringsOf(s, name, rrType));
  }

  function RecordsOf(lib: Lib, s: Store, name: string, rrType: nat): seq<RR> {
    GoodRecords(lib, StringsOf(s, name, rrType))
  }

  /** Strings that parse without an error; a blank string gives no record but
      still an entry. */
  function ParsedEntries(lib: Lib, strs: seq<string>): seq<Option<RR>> {
    if strs == [] then []
    else
      var n := |strs| - 1;
      var p := lib.parse(strs[n]);
      ParsedEntries(lib, strs[..n])
        + match p { case Bad => [] case Blank => [None] case Good(rr) => [Some(rr)] }
  }

  function Star(name: string): string {
    "*." + name
  }

  /** Records at the wildcard of the first ancestor, from the longest, that has
      any of the type. */
  function Wildcard(lib: Lib, s: Store, name: string, rrType: nat): seq<RR>
    decreases |name|
  {
    var (first, rest) := PopLeftmostLabel(name);
    if first == "" then []
    else
      var rrs := RecordsOf(lib, s, Star(rest), rrType);
      if rrs != [] then rrs else Wildcard(lib, s, rest, rrType)
  }

  function Glue(lib: Lib, s: Store, nsName: string): seq<RR> {
    var exact := RecordsOf(lib, s, nsName, TYPE_A);
    if exact != [] then exact else Wildcard(lib, s, nsName, TYPE_A)
  }

  /** Glue of all name servers of a delegation, in order. */
  function GlueOf(lib: Lib, s: Store, ns: seq<Option<RR>>): seq<RR> {
    if ns == [] then []
    else
      var e := ns[|ns| - 1];
      GlueOf(lib, s, ns[..|ns| - 1])
        + if e.Some? && e.value.data.NameServer? then Glue(lib, s, e.value.data.host) else []
  }

  function Renamed(rrs: seq<RR>, name: string): (r: seq<RR>)
    ensures |r| == |rrs|
    ensures forall i | 0 <= i < |rrs| :: r[i] == rrs[i].(name := name)
  {
    if rrs == [] then []
    else Renamed(rrs[..|rrs| - 1], name) + [rrs[|rrs| - 1].(name := name)]
  }

  // ----- the CNAME chase -----

  /** The first of the CNAME strings, when another type is asked and it parses. */
  function CnameIn(lib: Lib, typeMap: TypeMap, qType: nat): Option<RR> {
    var strs := StringsIn(typeMap, TYPE_CNAME);
    if qType != TYPE_CNAME && strs != [] && lib.parse(strs[0]).Good? then Some(lib.parse(strs[0]).rr) else None
  }

  /** The CNAME that is given for a name: only when the name has no record of the
      asked type. */
  function StoredCname(lib: Lib, s: Store, qType: nat, name: string): Option<RR> {
    if RecordsOf(lib, s, name, qType) == [] then CnameIn(lib, TypeMapOf(s, name), qType) else None
  }

  /** The name the chase goes on with. */
  function Next(lib: Lib, s: Store, qType: nat, name: string): Option<string> {
    var c := StoredCname(lib, s, qType, name);
    if c.Some? && c.value.data.CName? then Some(lib.lower(c.value.data.target)) else None
  }

  /** All CNAME edges a chase for `qType` can follow in the store. */
  function CnameEdges(lib: Lib, s: Store, qType: nat): Edges {
    map name | name in s && Next(lib, s, qType, name).Some? :: Next(lib, s, qType, name).value
  }

  // ----- one question -----

  /** What resolving one question adds to the reply and does to the cache.
      `live` are cached records; they follow `answer` in arbitrary order. */
  datatype Resolution = Resolution(
    handled: bool, answer: seq<RR>, live: Infos, ns: seq<Option<RR>>, extra: seq<RR>, cache: Cache)

  /** Without an exact match: the cache, then a delegation, then wildcards. */
  function Fallback(lib: Lib, s: Store, c: Cache, qType: nat, name: string, now: nat): Resolution {
    var live := LiveInfos(lib, InfosAt(c, name, qType), now);
    var c' := Pruned(lib, c, name, qType, now);
    if live != map[] then Resolution(true, [], live, [], [], c')
    else
      var ns := ParsedEntries(lib, StringsOf(s, name, TYPE_NS));
      if ns != [] then Resolution(false, [], map[], ns, GlueOf(lib, s, ns), c')
      else
        var wild := Renamed(Wildcard(lib, s, name, qType), name);
        Resolution(wild != [], wild, map[], [], [], c')
  }

  /** What each outcome of the fallback adds to a reply. */
  lemma FallbackReply(lib: Lib, s: Store, c: Cache, qType: nat, name: string, now: nat, r: Reply, cached: seq<RR>)
    ensures var res, live := Fallback(lib, s, c, qType, name, now), LiveInfos(lib, InfosAt(c, name, qType), now);
      var ns := ParsedEntries(lib, StringsIn(TypeMapOf(s, name), TYPE_NS));
      var wild := Renamed(Wildcard(lib, s, name, qType), name);
      && res.live == live && res.cache == Pruned(lib, c, name, qType, now)
      && (live != map[] ==> res.handled && Extended(r, res, cached) == r.(answer := r.answer + cached))
      && (live == map[] && ns != [] ==>
            && !res.handled
            && Extended(r, res, []) == Reply(r.answer, r.ns + ns, r.extra + GlueOf(lib, s, ns)))
      && (live == map[] && ns == [] ==>
            (res.handled <==> wild != []) && Extended(r, res, []) == r.(answer := r.answer + wild))
  {
    hide LiveInfos, InfosAt, Pruned, ParsedEntries, Wildcard, Renamed, GlueOf;
  }

  /** Resolution at the end of the chase. A stored CNAME that parses to something
      other than a CNAME record is given, but not followed. */
  function AtEnd(lib: Lib, s: Store, c: Cache, qType: nat, name: string, now: nat): Resolution {
    var exact := RecordsOf(lib, s, name, qType);
    var cname := StoredCname(lib, s, qType, name);
    if exact != [] then Resolution(true, exact, map[], [], [], c)
    else Prefixed(if cname.Some? then [cname.value] else [], Fallback(lib, s, c, qType, name, now))
  }

  /** The three sections of a reply. A name server string that parses to no
      record still takes a place in the second one. */
  datatype Reply = Reply(answer: seq<RR>, ns: seq<Option<RR>>, extra: seq<RR>)

  /** The reply after a resolution; `cached` are the live cache records in the
      order in which the cache gave them. */
  function Extended(r: Reply, res: Resolution, cached: seq<RR>): Reply {
    Reply(r.answer + res.answer + cached, r.ns + res.ns, r.extra + res.extra)
  }

  lemma ExactReply(lib: Lib, r: Reply, exact: seq<RR>, c: Cache, now: nat)
    ensures Extended(r, Resolution(true, exact, map[], [], [], c), []) == r.(answer := r.answer + exact)
    ensures Listing(lib, map[], now, [], [])
  {
    assert r.answer + exact + [] == r.answer + exact;
  }

  lemma ExtendedPrefixed(r: Reply, pre: seq<RR>, res: Resolution, cached: seq<RR>)
    ensures Extended(r.(answer := r.answer + pre), res, cached) == Extended(r, Prefixed(pre, res), cached)
    ensures Prefixed(pre, res).handled == res.handled
    ensures Prefixed(pre, res).live == res.live && Prefixed(pre, res).cache == res.cache
  {
    assert r.answer + pre + res.answer == r.answer + (pre + res.answer);
  }

  function Prefixed(rrs: seq<RR>, r: Resolution): Resolution {
    r.(answer := rrs + r.answer)
  }

  /** Resolution of a lower-case name. A cycle of CNAMEs has no result: the
      program does not return. */
  ghost function ResolveName(lib: Lib, s: Store, c: Cache, qType: nat, name: string, now: nat): Resolution
    requires Ends(CnameEdges(lib, s, qType), name)
    decreases ChaseLength(CnameEdges(lib, s, qType), name)
  {
    var g := CnameEdges(lib, s, qType);
    if name !in g then AtEnd(lib, s, c, qType, name, now)
    else
      ChaseStep(g, name);
      Prefixed([StoredCname(lib, s, qType, name).value], ResolveName(lib, s, c, qType, g[name], now))
  }

  lemma EdgeAt(lib: Lib, s: Store, qType: nat, name: string)
    ensures var cname, g := StoredCname(lib, s, qType, name), CnameEdges(lib, s, qType);
      && (name in g <==> cname.Some? && cname.value.data.CName?)
      && (name in g ==> g[name] == lib.lower(cname.value.data.target))
  {
    assert StoredCname(lib, s, qType, name).Some? ==> name in s;
  }

  lemma FoundIn(lib: Lib, s: Store, qType: nat, name: string)
    ensures RecordsOf(lib, s, name, qType) == GoodRecords(lib, StringsIn(TypeMapOf(s, name), qType))
    ensures RecordsOf(lib, s, name, qType) == [] ==>
      StoredCname(lib, s, qType, name) == CnameIn(lib, TypeMapOf(s, name), qType)
  {
  }

  /** The three ways resolution of a name goes on. */
  lemma ExactMatch(lib: Lib, s: Store, c: Cache, qType: nat, name: string, now: nat)
    requires RecordsOf(lib, s, name, qType) != [] && Ends(CnameEdges(lib, s, qType), name)
    ensures ResolveName(lib, s, c, qType, name, now)
         == Resolution(true, RecordsOf(lib, s, name, qType), map[], [], [], c)
  {
  }

  lemma ResolveStep(lib: Lib, s: Store, c: Cache, qType: nat, name: string, now: nat)
    requires Ends(CnameEdges(lib, s, qType), name) && name in CnameEdges(lib, s, qType)
    ensures var g := CnameEdges(lib, s, qType);
      && Ends(g, g[name])
      && ChaseLength(g, g[name]) < ChaseLength(g, name)
      && ResolveName(lib, s, c, qType, name, now)
           == Prefixed([StoredCname(lib, s, qType, name).value], ResolveName(lib, s, c, qType, g[name], now))
  {
    ChaseStep(CnameEdges(lib, s, qType), name);
  }

  lemma NoMatch(lib: Lib, s: Store, c: Cache, qType: nat, name: string, now: nat)
    requires RecordsOf(lib, s, name, qType) == [] && Ends(CnameEdges(lib, s, qType), name)
    requires name !in CnameEdges(lib, s, qType)
    ensures var cname := StoredCname(lib, s, qType, name);
      ResolveName(lib, s, c, qType, name, now)
        == Prefixed(if cname.Some? then [cname.value] else [], Fallback(lib, s, c, qType, name, now))
  {
  }

  // ----- wildcards -----

  /** The records at the first of some names whose wildcard has any. */
  function FirstHit(lib: Lib, s: Store, names: seq<string>, rrType: nat): seq<RR> {
    if names == [] then []
    else
      var rrs := RecordsOf(lib, s, Star(names[0]), rrType);
      if rrs != [] then rrs else FirstHit(lib, s, names[1..], rrType)
  }

  /** Popping labels one at a time searches the list of ancestors from the
      longest on. */
  lemma {:induction false} WildcardSearches(lib: Lib, s: Store, name: string, rrType: nat)
    ensures Wildcard(lib, s, name, rrType) == FirstHit(lib, s, Ancestors(name), rrType)
    decreases |name|
  {
    var (first, rest) := PopLeftmostLabel(name);
    if first != "" {
      assert Ancestors(name)[1..] == Ancestors(rest);
      WildcardSearches(lib, s, rest, rrType);
    }
  }

  lemma {:induction false} FirstHitAt(lib: Lib, s: Store, names: seq<string>, rrType: nat, k: nat)
    requires k < |names| && RecordsOf(lib, s, Star(names[k]), rrType) != []
    requires forall i | 0 <= i < k :: RecordsOf(lib, s, Star(names[i]), rrType) == []
    ensures FirstHit(lib, s, names, rrType) == RecordsOf(lib, s, Star(names[k]), rrType)
  {
    if k > 0 {
      FirstHitAt(lib, s, names[1..], rrType, k - 1);
    }
  }

  lemma {:induction false} FirstHitNone(lib: Lib, s: Store, names: seq<string>, rrType: nat)
    requires forall i | 0 <= i < |names| :: RecordsOf(lib, s, Star(names[i]), rrType) == []
    ensures FirstHit(lib, s, names, rrType) == []
  {
    if names != [] {
      FirstHitNone(lib, s, names[1..], rrType);
    }
  }

  /** The wildcard search gives all records of the first, that is longest,
      ancestor whose wildcard has any, and none exactly when no ancestor has. */
  lemma WildcardIsLongest(lib: Lib, s: Store, name: string, rrType: nat)
    ensures Wildcard(lib, s, name, rrType) == [] <==>
      forall i | 0 <= i < |Ancestors(name)| :: RecordsOf(lib, s, "*." + Ancestors(name)[i], rrType) == []
    ensures forall k | 0 <= k < |Ancestors(name)| ::
      (RecordsOf(lib, s, "*." + Ancestors(name)[k], rrType) != []
        && forall i | 0 <= i < k :: RecordsOf(lib, s, "*." + Ancestors(name)[i], rrType) == [])
      ==> Wildcard(lib, s, name, rrType) == RecordsOf(lib, s, "*." + Ancestors(name)[k], rrType)
  {
    var a := Ancestors(name);
    WildcardSearches(lib, s, name, rrType);
    forall k | 0 <= k < |a| && RecordsOf(lib, s, Star(a[k]), rrType) != []
        && forall i | 0 <= i < k :: RecordsOf(lib, s, Star(a[i]), rrType) == []
      ensures Wildcard(lib, s, name, rrType) == RecordsOf(lib, s, Star(a[k]), rrType)
    {
      FirstHitAt(lib, s, a, rrType, k);
    }
    if forall i | 0 <= i < |a| :: RecordsOf(lib, s, Star(a[i]), rrType) == [] {
      FirstHitNone(lib, s, a, rrType);
    } else {
      var k := LeastHit(lib, s, a, rrType);
      FirstHitAt(lib, s, a, rrType, k);
    }
  }

  lemma {:induction false} LeastHit(lib: Lib, s: Store, names: seq<string>, rrType: nat) returns (k: nat)
    requires exists i :: 0 <= i < |names| && RecordsOf(lib, s, Star(names[i]), rrType) != []
    ensures k < |names| && RecordsOf(lib, s, Star(names[k]), rrType) != []
    ensures forall i | 0 <= i < k :: RecordsOf(lib, s, Star(names[i]), rrType) == []
  {
    k := 0;
    while RecordsOf(lib, s, Star(names[k]), rrType) == []
      invariant k < |names|
      invariant forall i | 0 <= i < k :: RecordsOf(lib, s, Star(names[i]), rrType) == []
      decreases |names| - k
    {
      k := k + 1;
    }
  }

  lemma ConcatAssoc(a: string, b: string, c: string)
    ensures (a + b) + c == a + (b + c)
  {
  }

  /** Every ancestor is what follows some dot of the name, and they come from
      the longest to the shortest. */
  lemma {:induction false} AncestorFollowsDot(name: string, i: nat) returns (prefix: string)
    requires i < |Ancestors(name)|
    ensures name == prefix + Ancestors(name)[i]
    ensures prefix != "" && prefix[|prefix| - 1] == '.'
    ensures i > 0 ==> |Ancestors(name)[i]| < |Ancestors(name)[i - 1]|
    decreases |name|
  {
    var (first, rest) := PopLeftmostLabel(name);
    prefix := first + ".";
    var a := Ancestors(name)[i];
    if i > 0 {
      var above := Ancestors(rest);
      assert a == above[i - 1];
      assert i > 1 ==> Ancestors(name)[i - 1] == above[i - 2];
      var p := AncestorFollowsDot(rest, i - 1);
      ConcatAssoc(prefix, p, a);
      prefix := prefix + p;
    }
  }

  // ----- provenance -----

  /** Where an answer that is not cached may come from, for a chase that starts
      at `name`: a name on it, reached after `i` steps, and either the CNAME
      stored there, or, at the end of the chase, a record of the asked type
      stored there or at a wildcard above it, which then takes the name. */
  ghost predicate ComesFrom(lib: Lib, s: Store, qType: nat, name: string, i: nat, rr: RR) {
    var g := CnameEdges(lib, s, qType);
    var x := Walk(g, name, i);
    x.Some? && (
      || StoredCname(lib, s, qType, x.value) == Some(rr)
      || (x.value !in g
          && (|| rr in RecordsOf(lib, s, x.value, qType)
              || FromWildcard(lib, s, qType, x.value, rr))))
  }

  ghost predicate FromWildcard(lib: Lib, s: Store, qType: nat, name: string, rr: RR) {
    exists a, w :: a in Ancestors(name) && w in RecordsOf(lib, s, Star(a), qType) && rr == w.(name := name)
  }

  lemma {:induction false} WildcardSource(lib: Lib, s: Store, name: string, rrType: nat, w: RR)
    requires w in Wildcard(lib, s, name, rrType)
    ensures exists a :: a in Ancestors(name) && w in RecordsOf(lib, s, Star(a), rrType)
    decreases |name|
  {
    var (_, rest) := PopLeftmostLabel(name);
    assert rest == Ancestors(name)[0];
    if RecordsOf(lib, s, Star(rest), rrType) == [] {
      WildcardSource(lib, s, rest, rrType, w);
      var a :| a in Ancestors(rest) && w in RecordsOf(lib, s, Star(a), rrType);
      assert a in Ancestors(name);
    } else {
      assert rest in Ancestors(name);
    }
  }

  /** Glue comes from the name servers of the delegation: their own addresses,
      or, without any, those at a wildcard above them. */
  lemma {:induction false} GlueSource(lib: Lib, s: Store, ns: seq<Option<RR>>, rr: RR) returns (k: nat)
    requires rr in GlueOf(lib, s, ns)
    ensures k < |ns| && ns[k].Some? && ns[k].value.data.NameServer?
    ensures var host := ns[k].value.data.host;
      || rr in RecordsOf(lib, s, host, TYPE_A)
      || (RecordsOf(lib, s, host, TYPE_A) == []
            && exists a :: a in Ancestors(host) && rr in RecordsOf(lib, s, Star(a), TYPE_A))
  {
    hide GoodRecords, StringsOf, Ancestors, Wildcard;
    var n := |ns| - 1;
    if rr in GlueOf(lib, s, ns[..n]) {
      k := GlueSource(lib, s, ns[..n], rr);
    } else {
      k := n;
      var host := ns[n].value.data.host;
      if RecordsOf(lib, s, host, TYPE_A) == [] {
        WildcardSource(lib, s, host, TYPE_A, rr);
      }
    }
  }

  lemma AtEndSource(lib: Lib, s: Store, c: Cache, qType: nat, name: string, now: nat, rr: RR)
    requires rr in AtEnd(lib, s, c, qType, name, now).answer
    ensures || rr in RecordsOf(lib, s, name, qType)
            || StoredCname(lib, s, qType, name) == Some(rr)
            || FromWildcard(lib, s, qType, name, rr)
  {
    hide GoodRecords, Wildcard, GlueOf, ParsedEntries, RecordsOf, StoredCname, StringsOf;
    var wild := Wildcard(lib, s, name, qType);
    if rr !in RecordsOf(lib, s, name, qType) && StoredCname(lib, s, qType, name) != Some(rr) {
      var k :| 0 <= k < |wild| && Renamed(wild, name)[k] == rr;
      WildcardSource(lib, s, name, qType, wild[k]);
    }
  }

  lemma ComesFromLater(lib: Lib, s: Store, qType: nat, name: string, i: nat, rr: RR)
    requires name in CnameEdges(lib, s, qType)
    requires ComesFrom(lib, s, qType, CnameEdges(lib, s, qType)[name], i, rr)
    ensures ComesFrom(lib, s, qType, name, i + 1, rr)
  {
    var g := CnameEdges(lib, s, qType);
    assert Walk(g, name, i + 1) == Walk(g, g[name], i);
  }

  /** Every answer comes from a name on the chase. */
  lemma {:induction false} Provenance(lib: Lib, s: Store, c: Cache, qType: nat, name: string, now: nat, rr: RR)
    returns (i: nat)
    requires Ends(CnameEdges(lib, s, qType), name)
    requires rr in ResolveName(lib, s, c, qType, name, now).answer
    ensures i <= ChaseLength(CnameEdges(lib, s, qType), name) && ComesFrom(lib, s, qType, name, i, rr)
    decreases ChaseLength(CnameEdges(lib, s, qType), name)
  {
    hide AtEnd, StoredCname, RecordsOf, StringsOf, FromWildcard, Next;
    var g := CnameEdges(lib, s, qType);
    EdgeAt(lib, s, qType, name);
    i := 0;
    if name !in g {
      AtEndSource(lib, s, c, qType, name, now, rr);
    } else if rr != StoredCname(lib, s, qType, name).value {
      ChaseStep(g, name);
      i := Provenance(lib, s, c, qType, g[name], now, rr);
      ComesFromLater(lib, s, qType, name, i, rr);
      i := i + 1;
    }
  }

  /** The CNAME records of the first `n` steps of the chase, in order. */
  function Chain(lib: Lib, s: Store, qType: nat, name: string, n: nat): (r: seq<RR>)
    requires Walk(CnameEdges(lib, s, qType), name, n).Some?
    ensures |r| == n
    decreases n
  {
    if n == 0 then []
    else
      var rest := Chain(lib, s, qType, CnameEdges(lib, s, qType)[name], n - 1);
      [StoredCname(lib, s, qType, name).value] + rest
  }

  lemma PrefixedTwice(a: seq<RR>, b: seq<RR>, r: Resolution)
    ensures Prefixed(a, Prefixed(b, r)) == Prefixed(a + b, r)
  {
    assert a + (b + r.answer) == a + b + r.answer;
  }

  lemma ChainStep(lib: Lib, s: Store, qType: nat, name: string, n: nat, f: Resolution)
    requires n > 0 && Walk(CnameEdges(lib, s, qType), name, n).Some?
    ensures Prefixed(Chain(lib, s, qType, name, n), f)
         == Prefixed([StoredCname(lib, s, qType, name).value],
                     Prefixed(Chain(lib, s, qType, CnameEdges(lib, s, qType)[name], n - 1), f))
  {
    PrefixedTwice([StoredCname(lib, s, qType, name).value],
                  Chain(lib, s, qType, CnameEdges(lib, s, qType)[name], n - 1), f);
  }

  /** The reply is the chain in order, then what the final name gives. */
  lemma {:induction false} ChainThenFinal(lib: Lib, s: Store, c: Cache, qType: nat, name: string, now: nat, n: nat)
    requires EndsAfter(CnameEdges(lib, s, qType), name, n)
    ensures ResolveName(lib, s, c, qType, name, now)
         == Prefixed(Chain(lib, s, qType, name, n),
                     AtEnd(lib, s, c, qType, Walk(CnameEdges(lib, s, qType), name, n).value, now))
    decreases n
  {
    var g := CnameEdges(lib, s, qType);
    if n == 0 {
      PrefixedNone(AtEnd(lib, s, c, qType, name, now));
    } else {
      assert EndsAfter(g, g[name], n - 1);
      ChainThenFinal(lib, s, c, qType, g[name], now, n - 1);
      ResolveStep(lib, s, c, qType, name, now);
      ChainStep(lib, s, qType, name, n, AtEnd(lib, s, c, qType, Walk(g, name, n).value, now));
    }
  }

  lemma PrefixedNone(r: Resolution)
    ensures Prefixed([], r) == r
  {
    assert [] + r.answer == r.answer;
  }

  /** A chase that ends visits no more CNAME owners than the store has names. */
  lemma ChaseVisitsStore(lib: Lib, s: Store, qType: nat, name: string)
    requires Ends(CnameEdges(lib, s, qType), name)
    ensures ChaseLength(CnameEdges(lib, s, qType), name) <= |s|
  {
    var g := CnameEdges(lib, s, qType);
    ShortChase(g, name, ChaseLength(g, name));
    FewerEdges(g.Keys, s.Keys);
  }

  lemma {:induction false} FewerEdges(a: set<string>, b: set<string>)
    requires a <= b
    ensures |a| <= |b|
  {
    if x :| x in a {
      FewerEdges(a - {x}, b - {x});
    }
  }

  /** One CNAME record that points to its own name, added once, is enough for
      questions of any other type about that name never to be answered. */
  lemma CnameToItselfLoops(lib: Lib, str: string, qType: nat)
    requires lib.parse(str).Good? && qType != TYPE_CNAME
    requires var rr := lib.parse(str).rr;
      && rr.rrType == TYPE_CNAME && rr.data.CName? && lib.lower(rr.data.target) == lib.lower(rr.name)
      && lib.parse(lib.format(rr)) == Good(rr)
    ensures var s := StateAt(lib, [Data(AddRR(str))], 1);
      !Ends(CnameEdges(lib, s, qType), lib.lower(lib.parse(str).rr.name))
  {
    hide Ends;
    var rr := lib.parse(str).rr;
    var name := lib.lower(rr.name);
    var s := StateAt(lib, [Data(AddRR(str))], 1);
    assert StateAt(lib, [Data(AddRR(str))], 0) == map[];
    assert StringsOf(s, name, TYPE_CNAME) == [lib.format(rr)] && StringsOf(s, name, qType) == [];
    EdgeAt(lib, s, qType, name);
    SelfLoopNeverEnds(CnameEdges(lib, s, qType), name);
  }

  // ----- when a question counts as handled -----

  /** The CNAME record that is given at the end of a chase but not followed. */
  function Unfollowed(lib: Lib, s: Store, qType: nat, name: string): seq<RR> {
    var cname := StoredCname(lib, s, qType, name);
    if cname.Some? then [cname.value] else []
  }

  ghost predicate FromCache(lib: Lib, c: Cache, qType: nat, name: string, now: nat, rr: RR) {
    exists key ::
      && key in InfosAt(c, name, qType) && Live(lib, key, InfosAt(c, name, qType)[key], now)
      && rr == Restored(lib, key, InfosAt(c, name, qType)[key], now)
  }

  /** An answer to the question itself, not a CNAME on the way to it: stored at
      the final name, live in its cache, or at a wildcard above it. */
  ghost predicate FinalAnswer(lib: Lib, s: Store, c: Cache, qType: nat, name: string, now: nat, rr: RR) {
    || rr in RecordsOf(lib, s, name, qType)
    || FromCache(lib, c, qType, name, now, rr)
    || FromWildcard(lib, s, qType, name, rr)
  }

  /** The answers from position `before` on are those of resolving `name`: the
      CNAMEs of the chase, then final answers only; and the question counts as
      handled if and only if there is one. */
  ghost predicate HandledIffAnswered(lib: Lib, s: Store, c: Cache, qType: nat, name: string, now: nat,
                                     before: nat, answer: seq<RR>, handled: bool)
    requires Ends(CnameEdges(lib, s, qType), name)
  {
    var g := CnameEdges(lib, s, qType);
    var n := ChaseLength(g, name);
    var last := Walk(g, name, n).value;
    var on := before + n + |Unfollowed(lib, s, qType, last)|;
    && on <= |answer|
    && answer[before..on] == Chain(lib, s, qType, name, n) + Unfollowed(lib, s, qType, last)
    && (handled <==> on < |answer|)
    && forall i | on <= i < |answer| :: FinalAnswer(lib, s, c, qType, last, now, answer[i])
  }

  lemma WildcardAnswers(lib: Lib, s: Store, c: Cache, qType: nat, name: string, now: nat, i: nat)
    requires i < |Renamed(Wildcard(lib, s, name, qType), name)|
    ensures FinalAnswer(lib, s, c, qType, name, now, Renamed(Wildcard(lib, s, name, qType), name)[i])
  {
    WildcardSource(lib, s, name, qType, Wildcard(lib, s, name, qType)[i]);
  }

  lemma CacheAnswers(lib: Lib, s: Store, c: Cache, qType: nat, name: string, now: nat,
                     order: seq<string>, cached: seq<RR>, i: nat)
    requires Listing(lib, LiveInfos(lib, InfosAt(c, name, qType), now), now, order, cached) && i < |cached|
    ensures FinalAnswer(lib, s, c, qType, name, now, cached[i])
  {
    assert order[i] in InfosAt(c, name, qType);
  }

  lemma FallbackAnswers(lib: Lib, s: Store, c: Cache, qType: nat, name: string, now: nat,
                        order: seq<string>, cached: seq<RR>)
    requires Listing(lib, Fallback(lib, s, c, qType, name, now).live, now, order, cached)
    ensures var r := Fallback(lib, s, c, qType, name, now);
      && (r.handled <==> r.answer + cached != [])
      && (r.ns != [] ==> !r.handled)
      && forall i | 0 <= i < |r.answer + cached| ::
           FinalAnswer(lib, s, c, qType, name, now, (r.answer + cached)[i])
  {
    hide FinalAnswer, Wildcard, GlueOf, ParsedEntries, RecordsOf, StoredCname, StringsOf, LiveInfos, InfosAt, Listing, Renamed, Pruned;
    var r := Fallback(lib, s, c, qType, name, now);
    ListingEmpty(lib, r.live, now, order, cached);
    forall i | 0 <= i < |r.answer + cached|
      ensures FinalAnswer(lib, s, c, qType, name, now, (r.answer + cached)[i])
    {
      if i < |r.answer| {
        WildcardAnswers(lib, s, c, qType, name, now, i);
      } else {
        CacheAnswers(lib, s, c, qType, name, now, order, cached, i - |r.answer|);
      }
    }
  }

  lemma AtEndAnswers(lib: Lib, s: Store, c: Cache, qType: nat, name: string, now: nat,
                     order: seq<string>, cached: seq<RR>)
    requires Listing(lib, AtEnd(lib, s, c, qType, name, now).live, now, order, cached)
    ensures var r, u := AtEnd(lib, s, c, qType, name, now), Unfollowed(lib, s, qType, name);
      && |u| <= |r.answer| && r.answer[..|u|] == u
      && (r.handled <==> |u| < |r.answer + cached|)
      && (r.ns != [] ==> !r.handled)
      && forall i | |u| <= i < |r.answer + cached| ::
           FinalAnswer(lib, s, c, qType, name, now, (r.answer + cached)[i])
  {
    hide FinalAnswer, Fallback, Listing, RecordsOf, CnameIn, TypeMapOf;
    var exact, u := RecordsOf(lib, s, name, qType), Unfollowed(lib, s, qType, name);
    if exact == [] {
      FallbackAnswers(lib, s, c, qType, name, now, order, cached);
      var f := Fallback(lib, s, c, qType, name, now);
      assert AtEnd(lib, s, c, qType, name, now) == Prefixed(u, f);
      PrefixShifts(u, f.answer, cached);
    } else {
      ListingEmpty(lib, map[], now, order, cached);
      assert exact + cached == exact;
      forall i | 0 <= i < |exact|
        ensures FinalAnswer(lib, s, c, qType, name, now, exact[i])
      {
        ExactAnswers(lib, s, c, qType, name, now, i);
      }
    }
  }

  lemma ExactAnswers(lib: Lib, s: Store, c: Cache, qType: nat, name: string, now: nat, i: nat)
    requires i < |RecordsOf(lib, s, name, qType)|
    ensures FinalAnswer(lib, s, c, qType, name, now, RecordsOf(lib, s, name, qType)[i])
  {
  }

  lemma PrefixShifts<T>(u: seq<T>, a: seq<T>, b: seq<T>)
    ensures (u + a)[..|u|] == u && |u + a + b| == |u| + |a + b|
    ensures forall i | |u| <= i < |u + a + b| :: (u + a + b)[i] == (a + b)[i - |u|]
  {
  }

  /** A question is handled if and only if its reply gets an answer beyond the
      CNAMEs of the chase, and all such answers come from the final name. */
  lemma PositiveAnswer(lib: Lib, s: Store, c: Cache, qType: nat, name: string, now: nat,
                       r: Reply, order: seq<string>, cached: seq<RR>)
    requires Ends(CnameEdges(lib, s, qType), name)
    requires Listing(lib, ResolveName(lib, s, c, qType, name, now).live, now, order, cached)
    ensures var res := ResolveName(lib, s, c, qType, name, now);
      && HandledIffAnswered(lib, s, c, qType, name, now, |r.answer|, Extended(r, res, cached).answer, res.handled)
      && (res.ns != [] ==> !res.handled)
  {
    hide AtEnd, ResolveName, FinalAnswer, CnameEdges, Unfollowed, Listing;
    var g := CnameEdges(lib, s, qType);
    var n := ChaseLength(g, name);
    var last := Walk(g, name, n).value;
    ChainThenFinal(lib, s, c, qType, name, now, n);
    AtEndAnswers(lib, s, c, qType, last, now, order, cached);
    var chain, atEnd, u := Chain(lib, s, qType, name, n), AtEnd(lib, s, c, qType, last, now), Unfollowed(lib, s, qType, last);
    Shifted(r.answer, chain, atEnd.answer, cached, |u|);
  }

  /** Positions after two prefixes. */
  lemma Shifted<T>(x: seq<T>, y: seq<T>, a: seq<T>, b: seq<T>, k: nat)
    requires k <= |a|
    ensures var s := x + (y + a) + b;
      && |s| == |x| + |y| + |a + b|
      && s[|x|..|x| + |y| + k] == y + a[..k]
      && forall i | |x| + |y| <= i < |s| :: s[i] == (a + b)[i - |x| - |y|]
  {
  }

  // ----- where stored and cached answers were learned -----

  lemma {:induction false} GoodSource(lib: Lib, strs: seq<string>, rr: RR) returns (i: nat)
    requires rr in GoodRecords(lib, strs)
    ensures i < |strs| && lib.parse(strs[i]) == Good(rr)
  {
    var n := |strs| - 1;
    if rr in GoodRecords(lib, strs[..n]) {
      i := GoodSource(lib, strs[..n], rr);
    } else {
      i := n;
    }
  }

  /** A string stored under a name and type was printed from a record that the
      log adds there and does not delete later. */
  lemma {:induction false} LogStringSource(lib: Lib, log: seq<Entry>, n: nat, name: string, rrType: nat, str: string)
    returns (j: nat)
    requires n <= |log| && str in LogStrings(lib, log, n, name, rrType)
    ensures j < n && Adds(lib, log[j], name, rrType) && str == lib.format(lib.parse(log[j].op.rrString).rr)
    ensures forall k | j < k < n :: log[k] != Data(DeleteRR(name, rrType))
  {
    if str in LogStrings(lib, log, n - 1, name, rrType) {
      j := LogStringSource(lib, log, n - 1, name, rrType, str);
    } else {
      j := n - 1;
    }
  }

  /** Every stored answer is a record of the asked name and type that the log
      added and has not deleted since. */
  lemma StoredAnswerWasAdded(lib: Lib, log: seq<Entry>, n: nat, name: string, rrType: nat, rr: RR) returns (j: nat)
    requires lib.RoundTrips() && n <= |log| && rr in RecordsOf(lib, StateAt(lib, log, n), name, rrType)
    ensures j < n && log[j].Data? && log[j].op.AddRR? && lib.parse(log[j].op.rrString) == Good(rr)
    ensures lib.lower(rr.name) == name && rr.rrType == rrType
    ensures forall k | j < k < n :: log[k] != Data(DeleteRR(name, rrType))
  {
    hide GoodRecords, StateAt, LogStrings;
    StringsOfLog(lib, log, n, name, rrType);
    var strs := LogStrings(lib, log, n, name, rrType);
    var i := GoodSource(lib, strs, rr);
    j := LogStringSource(lib, log, n, name, rrType, strs[i]);
  }

  lemma EventInClock(events: seq<CacheEvent>, now: nat, e: CacheEvent)
    requires Clock(events, now) && e in events
    ensures e.time <= now && (now - e.time) / 1_000_000_000 < 0x1_0000_0000
  {
  }

  /** Every final answer has the asked type, and no answer from the cache has
      outlived its TTL. */
  lemma FinalAnswerTyped(lib: Lib, log: seq<Entry>, n: nat, events: seq<CacheEvent>, qType: nat, name: string, now: nat, rr: RR)
    requires lib.RoundTrips() && Clock(events, now) && n <= |log|
    requires FinalAnswer(lib, StateAt(lib, log, n), After(lib, events), qType, name, now, rr)
    ensures rr.rrType == qType
    ensures || rr in RecordsOf(lib, StateAt(lib, log, n), name, qType)
            || FromWildcard(lib, StateAt(lib, log, n), qType, name, rr)
            || exists e | e in events && e.Added? ::
                 && lib.lower(e.rr.name) == name && e.time <= now && now - e.time < e.rr.ttl * 1_000_000_000
                 && rr == e.rr.(ttl := e.rr.ttl - (now - e.time) / 1_000_000_000)
  {
    hide StateAt, After, RecordsOf, Clock;
    var s, c := StateAt(lib, log, n), After(lib, events);
    if rr in RecordsOf(lib, s, name, qType) {
      var _ := StoredAnswerWasAdded(lib, log, n, name, qType, rr);
    } else if FromWildcard(lib, s, qType, name, rr) {
      var a, w :| a in Ancestors(name) && w in RecordsOf(lib, s, Star(a), qType) && rr == w.(name := name);
      var _ := StoredAnswerWasAdded(lib, log, n, Star(a), qType, w);
    } else {
      var infos := InfosAt(c, name, qType);
      var key :| key in infos && Live(lib, key, infos[key], now) && rr == Restored(lib, key, infos[key], now);
      HistoryAgrees(lib, events, now, name, qType, key);
      var e := LastAdd(lib, events, name, qType, key).value;
      assert lib.parse(key) == Good(Erased(e.rr));
      EventInClock(events, now, e);
      AgeInSeconds(now, e.time, e.rr.ttl);
    }
  }

  // ----- several questions -----

  ghost predicate AllEnd(lib: Lib, s: Store, qs: seq<Question>) {
    forall i | 0 <= i < |qs| :: Ends(CnameEdges(lib, s, qs[i].qType), lib.lower(qs[i].name))
  }

  function CacheAfter(c: Cache, results: seq<Resolution>): Cache {
    if results == [] then c else results[|results| - 1].cache
  }

  /** The questions in order; each sees the cache the one before it left. */
  ghost function ResolveAll(lib: Lib, s: Store, c: Cache, qs: seq<Question>, now: nat): (r: seq<Resolution>)
    requires AllEnd(lib, s, qs)
    ensures |r| == |qs|
  {
    if qs == [] then []
    else
      var q, front := qs[|qs| - 1], qs[..|qs| - 1];
      assert forall i | 0 <= i < |front| :: front[i] == qs[i];
      var rest := ResolveAll(lib, s, c, front, now);
      rest + [ResolveName(lib, s, CacheAfter(c, rest), q.qType, lib.lower(q.name), now)]
  }

  function Unhandled(qs: seq<Question>, results: seq<Resolution>): seq<Question>
    requires |qs| == |results|
  {
    if qs == [] then []
    else
      var n := |qs| - 1;
      Unhandled(qs[..n], results[..n]) + if results[n].handled then [] else [qs[n]]
  }

  function ReplyOf(results: seq<Resolution>, cached: seq<seq<RR>>): Reply
    requires |results| == |cached|
  {
    if results == [] then Reply([], [], [])
    else
      var n := |results| - 1;
      Extended(ReplyOf(results[..n], cached[..n]), results[n], cached[n])
  }

  /** Each part of `cached` lists the live records of its resolution. */
  ghost predicate AllListed(lib: Lib, now: nat, results: seq<Resolution>, cached: seq<seq<RR>>) {
    && |cached| == |results|
    && forall i | 0 <= i < |results| :: Listed(lib, now, results[i].live, cached[i])
  }

  ghost predicate Listed(lib: Lib, now: nat, live: Infos, records: seq<RR>) {
    exists order :: Listing(lib, live, now, order, records)
  }

  lemma NoQuestions(lib: Lib, s: Store, c: Cache, now: nat)
    ensures AllEnd(lib, s, []) && ResolveAll(lib, s, c, [], now) == []
    ensures AllListed(lib, now, [], [])
  {
  }

  /** One more question. */
  lemma ResolveMore(lib: Lib, s: Store, c: Cache, qs: seq<Question>, i: nat, now: nat)
    requires AllEnd(lib, s, qs) && i < |qs|
    ensures AllEnd(lib, s, qs[..i]) && AllEnd(lib, s, qs[..i + 1])
    ensures Ends(CnameEdges(lib, s, qs[i].qType), lib.lower(qs[i].name))
    ensures var rest := ResolveAll(lib, s, c, qs[..i], now);
      ResolveAll(lib, s, c, qs[..i + 1], now)
        == rest + [ResolveName(lib, s, CacheAfter(c, rest), qs[i].qType, lib.lower(qs[i].name), now)]
  {
    hide ResolveName, CnameEdges;
    assert qs[..i + 1][..i] == qs[..i];
  }

  lemma ResultsMore(lib: Lib, c: Cache, now: nat, qs: seq<Question>, i: nat, results: seq<Resolution>, cached: seq<seq<RR>>,
                    res: Resolution, order: seq<string>, records: seq<RR>)
    requires i < |qs| && |results| == i && AllListed(lib, now, results, cached)
    requires Listing(lib, res.live, now, order, records)
    ensures AllListed(lib, now, results + [res], cached + [records])
    ensures ReplyOf(results + [res], cached + [records]) == Extended(ReplyOf(results, cached), res, records)
    ensures Unhandled(qs[..i + 1], results + [res])
         == Unhandled(qs[..i], results) + if res.handled then [] else [qs[i]]
    ensures CacheAfter(c, results + [res]) == res.cache
  {
    hide Listing, Extended;
    assert qs[..i + 1][..i] == qs[..i];
    assert (results + [res])[..i] == results && (cached + [records])[..i] == cached;
    assert Listed(lib, now, res.live, records);
  }

  // ----- replies up to the order of the cache -----

  lemma ListingIsMap(lib: Lib, now: nat, live: Infos, o: seq<string>, r: seq<RR>, f: string -> RR)
    requires Listing(lib, live, now, o, r)
    requires forall key | key in live && Live(lib, key, live[key], now) :: f(key) == Restored(lib, key, live[key], now)
    ensures r == Map(f, o)
  {
  }

  lemma ListingsAgree(lib: Lib, now: nat, live: Infos, o1: seq<string>, r1: seq<RR>,
                      o2: seq<string>, r2: seq<RR>)
    requires Listing(lib, live, now, o1, r1) && Listing(lib, live, now, o2, r2)
    ensures multiset(r1) == multiset(r2)
  {
    var f := (key: string) =>
      if key in live && Live(lib, key, live[key], now) then Restored(lib, key, live[key], now)
      else RR("", 0, 0, Other(""));
    ListingIsMap(lib, now, live, o1, r1, f);
    ListingIsMap(lib, now, live, o2, r2, f);
    SameElements(o1, o2);
    MapPermutation(f, o1, o2);
  }

  /** The same resolutions give the same reply, up to the order in which the
      cache was visited. */
  lemma {:induction false} SameReplies(lib: Lib, now: nat, results: seq<Resolution>,
                                       c1: seq<seq<RR>>, c2: seq<seq<RR>>)
    requires AllListed(lib, now, results, c1) && AllListed(lib, now, results, c2)
    ensures var r1, r2 := ReplyOf(results, c1), ReplyOf(results, c2);
      multiset(r1.answer) == multiset(r2.answer) && r1.ns == r2.ns && r1.extra == r2.extra
  {
    if results != [] {
      var n := |results| - 1;
      SameReplies(lib, now, results[..n], c1[..n], c2[..n]);
      assert Listed(lib, now, results[n].live, c1[n]) && Listed(lib, now, results[n].live, c2[n]);
      var o1 :| Listing(lib, results[n].live, now, o1, c1[n]);
      var o2 :| Listing(lib, results[n].live, now, o2, c2[n]);
      ListingsAgree(lib, now, results[n].live, o1, c1[n], o2, c2[n]);
    }
  }
}

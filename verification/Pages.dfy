/** The paged store as a value: resident pages, the recency list and the pages
    swapped out to disk. The class in PagedStore.dfy is proved against these
    functions; the theorems about recovery are proved about them. The program
    keeps at most 100 pages in memory; here that is any `cap` of at least 1. */
module Pages {
  import opened Records
  import opened FlatStore
  import opened Lru

  datatype Page = Page(key: nat, lastCommitIndex: nat, store: Store)

  datatype Paged = Paged(pages: map<nat, Page>, lru: seq<nat>, disk: map<nat, Page>)

  /** Resident pages and their order, as saved at a log index. Index 0 with no
      pages stands for having no snapshot. */
  datatype Snapshot = Snapshot(index: nat, pages: map<nat, Page>, lru: seq<nat>)

  function Restore(snap: Snapshot, disk: map<nat, Page>): Paged {
    Paged(snap.pages, snap.lru, disk)
  }

  const EMPTY := Paged(map[], [], map[])

  function NewPage(p: nat): Page {
    Page(p, 0, map[])
  }

  /** What reading page `p` in from disk yields; an absent page is a new one. */
  function OnDisk(disk: map<nat, Page>, p: nat): Page {
    if p in disk then disk[p] else NewPage(p)
  }

  /** The current copy of a page: memory over disk. */
  function Copy(s: Paged, p: nat): Page {
    if p in s.pages then s.pages[p] else OnDisk(s.disk, p)
  }

  /** Make page `p` resident and most recently used; swap out the front of the
      list when it grows too long. */
  function GetPage(cap: nat, s: Paged, p: nat): Paged {
    if p in s.pages then
      s.(lru := Access(cap, s.lru, p))
    else
      var pages := s.pages[p := OnDisk(s.disk, p)];
      var lru := s.lru + [p];
      if |lru| > cap && lru[0] in pages then
        Paged(pages - {lru[0]}, lru[1..], s.disk[lru[0] := pages[lru[0]]])
      else
        Paged(pages, lru, s.disk)
  }

  /** Apply a committed operation to one page unless the page is already ahead. */
  function UpdatePage(lib: Lib, pg: Page, op: Op, index: nat): Page {
    if pg.lastCommitIndex >= index then pg
    else pg.(lastCommitIndex := index, store := ApplyOp(lib, pg.store, op))
  }

  /** Apply the operation committed at `index`. */
  function Commit(lib: Lib, cap: nat, s: Paged, op: Op, index: nat): Paged {
    var t := Target(lib, op);
    if t.None? then s
    else
      var p := PageOf(lib, t.value);
      var s' := GetPage(cap, s, p);
      s'.(pages := s'.pages[p := UpdatePage(lib, Copy(s', p), op, index)])
  }

  // ----- the structural invariant -----

  predicate Placed(lib: Lib, pg: Page, p: nat) {
    pg.key == p && forall n | n in pg.store :: PageOf(lib, n) == p
  }

  ghost predicate PagesPlaced(lib: Lib, pages: map<nat, Page>) {
    forall p | p in pages :: Placed(lib, pages[p], p)
  }

  /** Resident pages and list entries are in bijection and within capacity, and
      every page holds only names that hash to it. */
  ghost predicate WellFormed(lib: Lib, cap: nat, s: Paged) {
    && 1 <= cap
    && NoDup(s.lru) && |s.lru| <= cap
    && (forall p | p in s.lru :: p in s.pages)
    && (forall p | p in s.pages :: p in s.lru)
    && PagesPlaced(lib, s.pages)
    && PagesPlaced(lib, s.disk)
  }

  lemma GetPageCopies(cap: nat, s: Paged, p: nat, q: nat)
    ensures Copy(GetPage(cap, s, p), q) == Copy(s, q)
  {
  }

  lemma Evict(cap: nat, l: seq<nat>, p: nat)
    requires NoDup(l) && 1 <= cap && |l| <= cap && p !in l
    ensures var l' := Access(cap, l, p);
      && NoDup(l') && |l'| <= cap && p in l'
      && (|l| < cap ==> l' == l + [p])
      && (|l| == cap ==> l' == (l + [p])[1..] && (l + [p])[0] == l[0] && l[0] !in l')
      && (forall q :: q in l' <==> (q in l || q == p) && (|l| < cap || q != l[0]))
  {
    var m := l + [p];
    assert forall q :: q in m <==> q in l || q == p;
    assert m == [m[0]] + m[1..];
    assert forall q :: q in m <==> q == m[0] || q in m[1..];
    assert m[|m| - 1] == p && NoDup(m);
    assert m[0] !in m[1..];
  }

  lemma GetPageListed(lib: Lib, cap: nat, s: Paged, p: nat)
    requires WellFormed(lib, cap, s)
    ensures var s' := GetPage(cap, s, p);
      && NoDup(s'.lru) && |s'.lru| <= cap
      && s'.lru == Access(cap, s.lru, p)
      && p in s'.pages
      && (forall q :: q in s'.pages <==> q in s'.lru)
  {
    if p !in s.pages {
      Evict(cap, s.lru, p);
    }
  }

  lemma GetPagePlaced(lib: Lib, cap: nat, s: Paged, p: nat)
    requires PagesPlaced(lib, s.pages) && PagesPlaced(lib, s.disk)
    ensures PagesPlaced(lib, GetPage(cap, s, p).pages) && PagesPlaced(lib, GetPage(cap, s, p).disk)
  {
  }

  /** A lookup leaves the page resident and no page copy changed, whatever it
      loads and evicts. */
  lemma GetPageKeeps(lib: Lib, cap: nat, s: Paged, p: nat)
    requires WellFormed(lib, cap, s)
    ensures var s' := GetPage(cap, s, p);
      && WellFormed(lib, cap, s')
      && p in s'.pages
      && s'.lru == Access(cap, s.lru, p)
      && (forall q :: Copy(s', q) == Copy(s, q))
  {
    GetPageListed(lib, cap, s, p);
    GetPagePlaced(lib, cap, s, p);
    forall q { GetPageCopies(cap, s, p, q); }
  }

  /** A commit changes the copy of its own page and of no other. */
  lemma CommitKeeps(lib: Lib, cap: nat, s: Paged, op: Op, index: nat)
    requires WellFormed(lib, cap, s)
    ensures var s' := Commit(lib, cap, s, op, index);
      && WellFormed(lib, cap, s')
      && (forall q :: Copy(s', q) ==
            if Touches(lib, op, q) then UpdatePage(lib, Copy(s, q), op, index) else Copy(s, q))
  {
    var t := Target(lib, op);
    if t.Some? {
      var p := PageOf(lib, t.value);
      GetPageKeeps(lib, cap, s, p);
      UpdatePlaced(lib, Copy(s, p), op, index);
    }
  }

  lemma CommitWellFormed(lib: Lib, cap: nat, s: Paged, op: Op, index: nat)
    requires WellFormed(lib, cap, s)
    ensures WellFormed(lib, cap, Commit(lib, cap, s, op, index))
  {
    CommitKeeps(lib, cap, s, op, index);
  }

  lemma UpdatePlaced(lib: Lib, pg: Page, op: Op, index: nat)
    requires Placed(lib, pg, pg.key) && Touches(lib, op, pg.key)
    ensures Placed(lib, UpdatePage(lib, pg, op, index), pg.key)
  {
  }

  // ----- the view -----

  ghost function Names(s: Paged): set<string> {
    set p, n | p in s.pages.Keys + s.disk.Keys && n in Copy(s, p).store :: n
  }

  /** All records of the store: the union of resident pages over disk pages. */
  ghost function View(lib: Lib, s: Paged): Store {
    map n | n in Names(s) && n in Copy(s, PageOf(lib, n)).store :: Copy(s, PageOf(lib, n)).store[n]
  }

  /** The view holds a name exactly when the current copy of its page does. */
  lemma ViewAt(lib: Lib, s: Paged, n: string)
    ensures n in View(lib, s) <==> n in Copy(s, PageOf(lib, n)).store
    ensures n in View(lib, s) ==> View(lib, s)[n] == Copy(s, PageOf(lib, n)).store[n]
  {
    var p := PageOf(lib, n);
    if n in Copy(s, p).store {
      assert p in s.pages.Keys + s.disk.Keys;
      assert n in Names(s);
    }
  }

  lemma ViewDetermined(lib: Lib, s: Paged, s': Paged)
    requires forall q :: Copy(s', q).store == Copy(s, q).store
    ensures View(lib, s') == View(lib, s)
  {
    forall n: string
      ensures n in View(lib, s') <==> n in View(lib, s)
      ensures n in View(lib, s) ==> View(lib, s')[n] == View(lib, s)[n]
    {
      ViewAt(lib, s, n);
      ViewAt(lib, s', n);
      assert Copy(s', PageOf(lib, n)).store == Copy(s, PageOf(lib, n)).store;
    }
  }

  lemma CopiesOfView(lib: Lib, cap: nat, s: Paged, q: nat)
    requires WellFormed(lib, cap, s)
    ensures Copy(s, q).store == Proj(lib, View(lib, s), q)
  {
    var c, v := Copy(s, q).store, Proj(lib, View(lib, s), q);
    assert Placed(lib, Copy(s, q), q);
    forall n: string
      ensures n in c <==> n in v
      ensures n in c ==> c[n] == v[n]
    {
      ViewAt(lib, s, n);
    }
  }

  lemma ViewOfCopies(lib: Lib, s: Paged, st: Store)
    requires forall q :: Copy(s, q).store == Proj(lib, st, q)
    ensures View(lib, s) == st
  {
    var v := View(lib, s);
    forall n: string
      ensures n in v <==> n in st
      ensures n in v ==> v[n] == st[n]
    {
      ViewAt(lib, s, n);
      assert Copy(s, PageOf(lib, n)).store == Proj(lib, st, PageOf(lib, n));
    }
  }

  /** Every page copy is the projection of `st` exactly when the view is `st`. */
  lemma ViewIs(lib: Lib, cap: nat, s: Paged, st: Store)
    requires WellFormed(lib, cap, s)
    ensures View(lib, s) == st <==> forall q :: Copy(s, q).store == Proj(lib, st, q)
  {
    forall q { CopiesOfView(lib, cap, s, q); }
    if forall q :: Copy(s, q).store == Proj(lib, st, q) {
      ViewOfCopies(lib, s, st);
    }
  }

  /** All page copies agree, contents and commit index. */
  ghost predicate SameCopies(s: Paged, s': Paged) {
    forall q :: Copy(s', q) == Copy(s, q)
  }

  lemma EvictionWritesCurrent(cap: nat, s: Paged, p: nat, q: nat)
    ensures var disk := GetPage(cap, s, p).disk;
      q in disk ==> disk[q] == Copy(s, q) || (q in s.disk && disk[q] == s.disk[q])
    ensures q in s.disk ==> q in GetPage(cap, s, p).disk
  {
  }

  /** A store with the same current copies whose disk differs only in copies
      that were current. */
  ghost predicate Swapped(s: Paged, s': Paged) {
    && (forall q :: Copy(s', q) == Copy(s, q))
    && (forall q | q in s'.disk :: s'.disk[q] == Copy(s, q) || (q in s.disk && s'.disk[q] == s.disk[q]))
    && (forall q | q in s.disk :: q in s'.disk)
  }

  lemma GetPageSwaps(lib: Lib, cap: nat, s: Paged, p: nat)
    requires WellFormed(lib, cap, s)
    ensures WellFormed(lib, cap, GetPage(cap, s, p)) && Swapped(s, GetPage(cap, s, p))
  {
    GetPageKeeps(lib, cap, s, p);
    forall q { EvictionWritesCurrent(cap, s, p, q); }
  }

  /** Loads and evictions never change the view. */
  lemma GetPageKeepsView(lib: Lib, cap: nat, s: Paged, p: nat)
    requires WellFormed(lib, cap, s)
    ensures WellFormed(lib, cap, GetPage(cap, s, p))
    ensures View(lib, GetPage(cap, s, p)) == View(lib, s)
  {
    GetPageKeeps(lib, cap, s, p);
    ViewDetermined(lib, s, GetPage(cap, s, p));
  }

  /** The flat effect of a commit on the view: all of the operation, unless its
      page is already ahead of `index`, and then none of it. */
  lemma CommitRefines(lib: Lib, cap: nat, s: Paged, op: Op, index: nat)
    requires WellFormed(lib, cap, s)
    ensures var t := Target(lib, op);
      View(lib, Commit(lib, cap, s, op, index))
        == if t.Some? && Copy(s, PageOf(lib, t.value)).lastCommitIndex < index
           then ApplyOp(lib, View(lib, s), op) else View(lib, s)
  {
    CommitKeeps(lib, cap, s, op, index);
    var s' := Commit(lib, cap, s, op, index);
    var st := View(lib, s);
    ViewIs(lib, cap, s, st);
    var t := Target(lib, op);
    if t.Some? && Copy(s, PageOf(lib, t.value)).lastCommitIndex < index {
      forall q
        ensures Copy(s', q).store == Proj(lib, ApplyOp(lib, st, op), q)
      {
        ProjApply(lib, st, op, q);
      }
      ViewIs(lib, cap, s', ApplyOp(lib, st, op));
    } else {
      ViewDetermined(lib, s, s');
    }
  }

  /** Adding a record and deleting it again, in the paged store: the same is
      left as in the flat one, for the same spellings. */
  lemma PagedDeleteAfterAddIff(lib: Lib, cap: nat, s: Paged, str: string, name: string, i: nat, j: nat)
    requires WellFormed(lib, cap, s) && lib.parse(str).Good?
    requires var rr := lib.parse(str).rr;
      && Copy(s, PageOf(lib, lib.lower(rr.name))).lastCommitIndex < i < j
      && Copy(s, PageOf(lib, name)).lastCommitIndex < j
    ensures var rr := lib.parse(str).rr;
      var owner := lib.lower(rr.name);
      var s' := Commit(lib, cap, Commit(lib, cap, s, AddRR(str), i), DeleteRR(name, rr.rrType), j);
      && View(lib, s') == ApplyOp(lib, ApplyOp(lib, View(lib, s), AddRR(str)), DeleteRR(name, rr.rrType))
      && (owner in View(lib, s') && rr.rrType in View(lib, s')[owner] <==> name != owner)
  {
    hide View, ApplyOp, Commit, Copy;
    var rr := lib.parse(str).rr;
    CommitKeeps(lib, cap, s, AddRR(str), i);
    CommitRefines(lib, cap, s, AddRR(str), i);
    CommitRefines(lib, cap, Commit(lib, cap, s, AddRR(str), i), DeleteRR(name, rr.rrType), j);
    DeleteAfterAddIff(lib, View(lib, s), str, name);
  }

  // ----- whole access traces -----

  function GetPages(cap: nat, s: Paged, trace: seq<nat>): Paged {
    if trace == [] then s
    else
      var n := |trace| - 1;
      GetPage(cap, GetPages(cap, s, trace[..n]), trace[n])
  }

  /** After any trace of page accesses on an empty store, the resident pages are
      the last `cap` distinct ones, in order of recency, and no record has
      appeared or gone. */
  lemma {:induction false} ResidentPages(lib: Lib, cap: nat, trace: seq<nat>)
    requires cap >= 1
    ensures var s := GetPages(cap, EMPTY, trace);
      && WellFormed(lib, cap, s)
      && s.lru == Suffix(Recency(trace), cap)
      && (forall q :: q in s.pages <==> q in Suffix(Recency(trace), cap))
      && View(lib, s) == map[]
  {
    TraceAccesses(lib, cap, EMPTY, trace);
    Residency(cap, trace);
    ViewDetermined(lib, EMPTY, GetPages(cap, EMPTY, trace));
    assert Names(EMPTY) == {};
  }

  lemma {:induction false} TraceAccesses(lib: Lib, cap: nat, s: Paged, trace: seq<nat>)
    requires WellFormed(lib, cap, s)
    ensures var s' := GetPages(cap, s, trace);
      && WellFormed(lib, cap, s')
      && s'.lru == ResidentFrom(cap, s.lru, trace)
      && (forall q :: Copy(s', q) == Copy(s, q))
  {
    if trace != [] {
      var n := |trace| - 1;
      TraceAccesses(lib, cap, s, trace[..n]);
      GetPageKeeps(lib, cap, GetPages(cap, s, trace[..n]), trace[n]);
    }
  }

  lemma {:induction false} GetPagesConcat(cap: nat, s: Paged, a: seq<nat>, b: seq<nat>)
    ensures GetPages(cap, s, a + b) == GetPages(cap, GetPages(cap, s, a), b)
  {
    if b == [] {
      assert a + b == a;
    } else {
      var n := |b| - 1;
      assert (a + b)[..|a| + n] == a + b[..n];
      GetPagesConcat(cap, s, a, b[..n]);
    }
  }

  function PagesOf(lib: Lib, names: seq<string>): (r: seq<nat>)
    ensures |r| == |names|
    ensures forall i | 0 <= i < |names| :: r[i] == PageOf(lib, names[i])
  {
    seq(|names|, i requires 0 <= i < |names| => PageOf(lib, names[i]))
  }

  /** What a query does to the store: it looks up names one after the other. */
  ghost predicate OnlyLookups(lib: Lib, cap: nat, s: Paged, s': Paged) {
    exists names :: s' == GetPages(cap, s, PagesOf(lib, names))
  }

  lemma NoLookups(lib: Lib, cap: nat, s: Paged)
    ensures OnlyLookups(lib, cap, s, s)
  {
    assert PagesOf(lib, []) == [];
    assert s == GetPages(cap, s, PagesOf(lib, []));
  }

  lemma LookupMore(lib: Lib, cap: nat, s: Paged, s': Paged, name: string)
    requires OnlyLookups(lib, cap, s, s')
    ensures OnlyLookups(lib, cap, s, GetPage(cap, s', PageOf(lib, name)))
  {
    hide GetPage;
    var names :| s' == GetPages(cap, s, PagesOf(lib, names));
    var more := names + [name];
    assert PagesOf(lib, more)[..|names|] == PagesOf(lib, names);
    assert GetPage(cap, s', PageOf(lib, name)) == GetPages(cap, s, PagesOf(lib, more));
  }

  lemma LookupsTwice(lib: Lib, cap: nat, s: Paged, s': Paged, s'': Paged)
    requires OnlyLookups(lib, cap, s, s') && OnlyLookups(lib, cap, s', s'')
    ensures OnlyLookups(lib, cap, s, s'')
  {
    hide GetPages;
    var a :| s' == GetPages(cap, s, PagesOf(lib, a));
    var b :| s'' == GetPages(cap, s', PagesOf(lib, b));
    assert PagesOf(lib, a + b) == PagesOf(lib, a) + PagesOf(lib, b);
    GetPagesConcat(cap, s, PagesOf(lib, a), PagesOf(lib, b));
    assert s'' == GetPages(cap, s, PagesOf(lib, a + b));
  }

  // ----- reading the commit channel -----

  /** The store and the number of messages taken when the commit loop, at message
      `k` of what the channel will carry, returns. `load` tells which snapshot is
      the newest when message `k` is handled. */
  function Read(lib: Lib, cap: nat, s: Paged, msgs: seq<CommitMsg>, k: nat,
                load: nat -> Option<Snapshot>, isInit: bool): (Paged, nat)
    requires k <= |msgs|
    decreases |msgs| - k
  {
    if k == |msgs| then (s, k)
    else
      match msgs[k]
      case Proposal(index, op) =>
        Read(lib, cap, Commit(lib, cap, s, op, index), msgs, k + 1, load, isInit)
      case ReplayDone =>
        if isInit || load(k).None? then (s, k + 1)
        else Read(lib, cap, Restore(load(k).value, s.disk), msgs, k + 1, load, isInit)
  }

  /** Every snapshot that can be loaded came from a well-formed store. */
  ghost predicate Loadable(lib: Lib, cap: nat, load: nat -> Option<Snapshot>) {
    forall k :: load(k).Some? ==> WellFormed(lib, cap, Restore(load(k).value, map[]))
  }
}

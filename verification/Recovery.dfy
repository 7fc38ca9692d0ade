/** One replica of the paged store over whole runs: delivery of committed
    entries, queries, snapshots and crashes, in any interleaving.

    The raft goroutine hands an entry over on an unbuffered channel and goes on
    while the store goroutine still has to apply it; `pending` is that entry.
    Snapshots are taken by the raft goroutine, so they can fall into this gap. */
module Recovery {
  import opened Records
  import opened FlatStore
  import opened Pages

  /**
   - `log`: the agreed log, as far as it is committed anywhere
   - `delivered`: the raft node's appliedIndex
   - `pending`: index of an entry received from the channel but not yet applied
   - `replayTo`: last index found in the write-ahead log at start
   - `serving`: the signal that replay has finished has been received
   - `high`: largest index ever delivered, in this incarnation or an earlier one
   */
  datatype Replica = Replica(
    log: seq<Entry>, store: Paged, snap: Snapshot,
    delivered: nat, pending: Option<nat>, replayTo: nat, serving: bool, high: nat)

  datatype Event =
    | Grow(entry: Entry)     // a further entry is committed by the cluster
    | Deliver                // the raft node publishes its next entry
    | Apply                  // the store applies the entry it received
    | FinishReplay           // the store receives the nil that ends replay
    | Lookup(name: string)   // a query looks a name up
    | TakeSnapshot           // the raft node saves getSnapshot at appliedIndex
    | Crash(walEnd: nat)     // stop, restart, reload the snapshot

  const START := Replica([], EMPTY, Snapshot(0, map[], []), 0, None, 0, false, 0)

  predicate PendingInLog(r: Replica) {
    && r.pending.Some?
    && 1 <= r.pending.value <= |r.log|
    && r.log[r.pending.value - 1].Data?
  }

  /** When the code can take a step. Delivery of a proposal waits for the store
      to be back at the channel. After publishing `replayTo` the raft node sends
      the nil before anything else. Queries and snapshots need an initialised
      store. Entries are saved to the write-ahead log before they are published,
      so a restart finds at least all delivered entries there. */
  predicate Enabled(r: Replica, ev: Event) {
    match ev
    case Grow(_) => true
    case Deliver =>
      && r.delivered < |r.log|
      && (r.serving || r.delivered < r.replayTo)
      && (r.log[r.delivered].Data? ==> r.pending.None?)
    case Apply => PendingInLog(r)
    case FinishReplay => !r.serving && r.delivered == r.replayTo && r.pending.None?
    case Lookup(_) => r.serving
    case TakeSnapshot => r.serving
    case Crash(walEnd) => r.high <= walEnd
  }

  function Step(lib: Lib, cap: nat, r: Replica, ev: Event): Replica
    requires Enabled(r, ev)
  {
    match ev
    case Grow(e) => r.(log := r.log + [e])
    case Deliver =>
      var i := r.delivered + 1;
      r.(delivered := i,
         pending := if r.log[i - 1].Data? then Some(i) else r.pending,
         high := if i > r.high then i else r.high)
    case Apply =>
      var i := r.pending.value;
      r.(store := Commit(lib, cap, r.store, r.log[i - 1].op, i), pending := None)
    case FinishReplay => r.(serving := true)
    case Lookup(name) => r.(store := GetPage(cap, r.store, PageOf(lib, name)))
    case TakeSnapshot => r.(snap := Snapshot(r.delivered, r.store.pages, r.store.lru))
    case Crash(walEnd) =>
      r.(store := Restore(r.snap, r.store.disk), delivered := r.snap.index,
         pending := None, replayTo := walEnd, serving := false)
  }

  /** What the raft node could check before taking a snapshot: nothing is
      pending, or the pending operation will not change the store. */
  predicate Settled(lib: Lib, r: Replica)
    requires r.pending.Some? ==> PendingInLog(r)
  {
    r.pending.None?
    || NoOp(lib, StateAt(lib, r.log, r.pending.value - 1), r.log[r.pending.value - 1].op)
  }

  /** The index through which the store has caught up. */
  function Applied(r: Replica): nat
    requires r.pending.Some? ==> 1 <= r.pending.value
  {
    if r.pending.Some? then r.pending.value - 1 else r.delivered
  }

  /** As `Applied`, counting a pending no-op as applied. */
  function Current(lib: Lib, r: Replica): nat
    requires r.pending.Some? ==> PendingInLog(r)
  {
    if Settled(lib, r) then r.delivered else r.pending.value - 1
  }

  // ----- versions -----

  /** A copy of page `p` is the projection of the log at the copy's own commit
      index, and nothing changed on the page between that index and `upto`. */
  ghost predicate Version(lib: Lib, log: seq<Entry>, p: nat, pg: Page, upto: nat)
    requires upto <= |log|
  {
    && Placed(lib, pg, p)
    && pg.lastCommitIndex <= |log|
    && pg.store == Proj(lib, StateAt(lib, log, pg.lastCommitIndex), p)
    && forall j | pg.lastCommitIndex <= j <= upto :: Proj(lib, StateAt(lib, log, j), p) == pg.store
  }

  /** The copy recovery would start from: snapshot over disk over empty. */
  function Recovered(snap: Snapshot, disk: map<nat, Page>, p: nat): Page {
    Copy(Restore(snap, disk), p)
  }

  function Max(a: nat, b: nat): nat {
    if a < b then b else a
  }

  /** Between the pending entry and `delivered` there are no proposals. */
  ghost predicate Handshake(r: Replica) {
    && r.delivered <= r.high <= |r.log|
    && r.high <= Max(r.replayTo, r.delivered)
    && (r.pending.Some? ==>
          && PendingInLog(r)
          && r.pending.value <= r.delivered
          && forall j | r.pending.value <= j < r.delivered :: r.log[j].NoData?)
    && (r.serving ==> r.replayTo <= Applied(r))
  }

  ghost predicate MemoryOk(lib: Lib, r: Replica)
    requires Handshake(r)
  {
    forall p :: var pg := Copy(r.store, p);
      && Version(lib, r.log, p, pg, Current(lib, r))
      && pg.lastCommitIndex <= Max(r.replayTo, Applied(r))
      && pg.lastCommitIndex <= r.high
  }

  /** Also a copy on disk that memory or the snapshot hides is one of the
      versions the page went through. */
  ghost predicate DiskOk(lib: Lib, r: Replica) {
    forall p | p in r.store.disk ::
      Version(lib, r.log, p, r.store.disk[p], 0) && r.store.disk[p].lastCommitIndex <= r.high
  }

  ghost predicate SnapshotOk(lib: Lib, r: Replica)
    requires Handshake(r)
  {
    && r.snap.index <= Current(lib, r)
    && forall p :: var pg := Recovered(r.snap, r.store.disk, p);
      && Version(lib, r.log, p, pg, r.snap.index)
      && pg.lastCommitIndex <= r.high
  }

  ghost predicate Inv(lib: Lib, cap: nat, r: Replica) {
    && Handshake(r)
    && WellFormed(lib, cap, r.store)
    && WellFormed(lib, cap, Restore(r.snap, r.store.disk))
    && MemoryOk(lib, r)
    && DiskOk(lib, r)
    && SnapshotOk(lib, r)
  }

  // ----- the log around one index -----

  lemma {:induction false} NoDataKeeps(lib: Lib, log: seq<Entry>, i: nat, j: nat)
    requires i <= j <= |log|
    requires forall k | i <= k < j :: log[k].NoData?
    ensures StateAt(lib, log, j) == StateAt(lib, log, i)
  {
    if i < j {
      NoDataKeeps(lib, log, i, j - 1);
    }
  }

  lemma NoOpKeeps(lib: Lib, log: seq<Entry>, i: nat)
    requires 1 <= i <= |log| && log[i - 1].Data? && NoOp(lib, StateAt(lib, log, i - 1), log[i - 1].op)
    ensures StateAt(lib, log, i) == StateAt(lib, log, i - 1)
  {
    StateAtTrim(lib, log, i - 1);
    NoOpIffUnchanged(lib, StateAt(lib, log, i - 1), log[i - 1].op);
  }

  /** A pending no-op leaves the state alone all the way to `delivered`. */
  lemma SettledKeeps(lib: Lib, r: Replica, j: nat)
    requires Handshake(r) && Applied(r) <= j <= r.delivered
    requires j <= Current(lib, r)
    ensures StateAt(lib, r.log, j) == StateAt(lib, r.log, Applied(r))
  {
    if r.pending.Some? && j > Applied(r) {
      NoDataKeeps(lib, r.log, r.pending.value, j);
      NoOpKeeps(lib, r.log, r.pending.value);
    }
  }

  lemma VersionLonger(lib: Lib, log: seq<Entry>, p: nat, pg: Page, a: nat, b: nat)
    requires a <= b <= |log|
    requires Version(lib, log, p, pg, a)
    requires forall j | a < j <= b :: Proj(lib, StateAt(lib, log, j), p) == Proj(lib, StateAt(lib, log, a), p)
    ensures Version(lib, log, p, pg, b)
  {
  }

  lemma VersionGrow(lib: Lib, log: seq<Entry>, e: Entry, p: nat, pg: Page, upto: nat)
    requires upto <= |log| && Version(lib, log, p, pg, upto)
    ensures Version(lib, log + [e], p, pg, upto)
  {
    StateAtPrefix(lib, log, log + [e], pg.lastCommitIndex);
    forall j | pg.lastCommitIndex <= j <= upto
      ensures Proj(lib, StateAt(lib, log + [e], j), p) == pg.store
    {
      StateAtPrefix(lib, log, log + [e], j);
    }
  }

  // ----- every step keeps the invariant -----

  lemma GrowKeeps(lib: Lib, cap: nat, r: Replica, e: Entry)
    requires Inv(lib, cap, r)
    ensures Inv(lib, cap, r.(log := r.log + [e]))
  {
    var r' := r.(log := r.log + [e]);
    if r.pending.Some? {
      StateAtPrefix(lib, r.log, r'.log, r.pending.value - 1);
    }
    assert Handshake(r');
    assert Current(lib, r') == Current(lib, r);
    forall p
      ensures Version(lib, r'.log, p, Copy(r'.store, p), Current(lib, r'))
      ensures Version(lib, r'.log, p, Recovered(r'.snap, r'.store.disk, p), r'.snap.index)
    {
      VersionGrow(lib, r.log, e, p, Copy(r.store, p), Current(lib, r));
      VersionGrow(lib, r.log, e, p, Recovered(r.snap, r.store.disk, p), r.snap.index);
    }
    forall p | p in r.store.disk
      ensures Version(lib, r'.log, p, r.store.disk[p], 0)
    {
      VersionGrow(lib, r.log, e, p, r.store.disk[p], 0);
    }
  }

  lemma DeliverState(lib: Lib, cap: nat, r: Replica, j: nat)
    requires Handshake(r) && Enabled(r, Deliver)
    ensures var r' := Step(lib, cap, r, Deliver);
      && Handshake(r')
      && Current(lib, r) <= Current(lib, r')
      && Applied(r) <= Applied(r')
      && (Current(lib, r) < j <= Current(lib, r') ==>
            StateAt(lib, r.log, j) == StateAt(lib, r.log, Current(lib, r)))
  {
    var r' := Step(lib, cap, r, Deliver);
    assert Handshake(r');
    if Current(lib, r) < j <= Current(lib, r') {
      if r.log[r.delivered].Data? {
        SettledKeeps(lib, r', j);
      } else {
        NoDataKeeps(lib, r.log, r.delivered, j);
      }
    }
  }

  lemma DeliverKeeps(lib: Lib, cap: nat, r: Replica)
    requires Inv(lib, cap, r) && Enabled(r, Deliver)
    ensures Inv(lib, cap, Step(lib, cap, r, Deliver))
  {
    var r' := Step(lib, cap, r, Deliver);
    forall j: nat { DeliverState(lib, cap, r, j); }
    var a, b := Current(lib, r), Current(lib, r');
    forall p
      ensures Version(lib, r.log, p, Copy(r.store, p), b)
    {
      VersionLonger(lib, r.log, p, Copy(r.store, p), a, b);
    }
  }

  /** The copy of one page after the entry committed at `i` is applied to it,
      when no further proposal follows up to `upto`. */
  lemma UpdateVersion(lib: Lib, log: seq<Entry>, i: nat, upto: nat, p: nat, pg: Page)
    requires 1 <= i <= upto <= |log| && log[i - 1].Data?
    requires forall j | i <= j < upto :: log[j].NoData?
    requires Version(lib, log, p, pg, i - 1)
    ensures Version(lib, log, p,
              if Touches(lib, log[i - 1].op, p) then UpdatePage(lib, pg, log[i - 1].op, i) else pg, upto)
  {
    var op := log[i - 1].op;
    ProjApply(lib, StateAt(lib, log, i - 1), op, p);
    forall j | i <= j <= upto
      ensures StateAt(lib, log, j) == StateAt(lib, log, i)
    {
      NoDataKeeps(lib, log, i, j);
    }
    if Touches(lib, op, p) {
      UpdatePlaced(lib, pg, op, i);
    }
  }

  /** An eviction writes a current copy; for the pages recovery would read from
      disk this never loses an update below the snapshot index. */
  lemma SwapVersion(lib: Lib, cap: nat, r: Replica, s': Paged, q: nat)
    requires Inv(lib, cap, r) && Swapped(r.store, s')
    ensures q in s'.disk ==> Version(lib, r.log, q, s'.disk[q], 0) && s'.disk[q].lastCommitIndex <= r.high
    ensures Version(lib, r.log, q, Recovered(r.snap, s'.disk, q), r.snap.index)
    ensures Recovered(r.snap, s'.disk, q).lastCommitIndex <= r.high
  {
    assert Version(lib, r.log, q, Copy(r.store, q), Current(lib, r));
    assert Version(lib, r.log, q, Recovered(r.snap, r.store.disk, q), r.snap.index);
    if q in s'.disk && q !in r.snap.pages {
      assert Recovered(r.snap, s'.disk, q) == s'.disk[q];
    }
  }

  lemma SwapKeeps(lib: Lib, cap: nat, r: Replica, s': Paged)
    requires Inv(lib, cap, r) && WellFormed(lib, cap, s') && Swapped(r.store, s')
    ensures Inv(lib, cap, r.(store := s'))
  {
    var r' := r.(store := s');
    assert Handshake(r') && Current(lib, r') == Current(lib, r) && Applied(r') == Applied(r);
    assert MemoryOk(lib, r');
    forall q { SwapVersion(lib, cap, r, s', q); }
  }

  lemma ApplyMemory(lib: Lib, cap: nat, r: Replica, p: nat)
    requires Inv(lib, cap, r) && Enabled(r, Event.Apply)
    ensures var pg := Copy(Step(lib, cap, r, Event.Apply).store, p);
      && Version(lib, r.log, p, pg, r.delivered)
      && pg.lastCommitIndex <= Max(r.replayTo, r.delivered)
      && pg.lastCommitIndex <= r.high
  {
    CommitKeeps(lib, cap, r.store, r.log[r.pending.value - 1].op, r.pending.value);
    UpdateVersion(lib, r.log, r.pending.value, r.delivered, p, Copy(r.store, p));
  }

  /** The page loaded for the entry may swap another one out. */
  lemma ApplyDisk(lib: Lib, cap: nat, r: Replica)
    requires Inv(lib, cap, r) && Enabled(r, Event.Apply)
    ensures exists s: Paged :: s.disk == Step(lib, cap, r, Event.Apply).store.disk && Inv(lib, cap, r.(store := s))
  {
    hide Inv, GetPage, UpdatePage, Copy;
    var op := r.log[r.pending.value - 1].op;
    var t := Target(lib, op);
    var s := if t.Some? then GetPage(cap, r.store, PageOf(lib, t.value)) else r.store;
    if t.Some? {
      LookupKeeps(lib, cap, r, PageOf(lib, t.value));
    }
    assert s.disk == Step(lib, cap, r, Event.Apply).store.disk && r.(store := r.store) == r;
  }

  lemma LookupKeeps(lib: Lib, cap: nat, r: Replica, p: nat)
    requires Inv(lib, cap, r)
    ensures Inv(lib, cap, r.(store := GetPage(cap, r.store, p)))
  {
    GetPageSwaps(lib, cap, r.store, p);
    SwapKeeps(lib, cap, r, GetPage(cap, r.store, p));
  }

  lemma ApplyKeeps(lib: Lib, cap: nat, r: Replica)
    requires Inv(lib, cap, r) && Enabled(r, Event.Apply)
    ensures Inv(lib, cap, Step(lib, cap, r, Event.Apply))
  {
    hide GetPage, UpdatePage, Commit, Copy, Version;
    var op := r.log[r.pending.value - 1].op;
    var r' := Step(lib, cap, r, Event.Apply);
    CommitKeeps(lib, cap, r.store, op, r.pending.value);
    assert Handshake(r') && Current(lib, r') == Applied(r') == r.delivered;
    forall p { ApplyMemory(lib, cap, r, p); }
    ApplyDisk(lib, cap, r);
    var s: Paged :| s.disk == r'.store.disk && Inv(lib, cap, r.(store := s));
  }

  lemma TakeSnapshotKeeps(lib: Lib, cap: nat, r: Replica)
    requires Inv(lib, cap, r) && Enabled(r, TakeSnapshot) && Settled(lib, r)
    ensures Inv(lib, cap, Step(lib, cap, r, TakeSnapshot))
  {
    var r' := Step(lib, cap, r, TakeSnapshot);
    assert forall p :: Recovered(r'.snap, r'.store.disk, p) == Copy(r.store, p);
  }

  lemma CrashKeeps(lib: Lib, cap: nat, r: Replica, walEnd: nat)
    requires Inv(lib, cap, r) && Enabled(r, Crash(walEnd))
    ensures Inv(lib, cap, Step(lib, cap, r, Crash(walEnd)))
  {
    var r' := Step(lib, cap, r, Crash(walEnd));
    assert forall p :: Copy(r'.store, p) == Recovered(r.snap, r.store.disk, p);
  }

  lemma StepKeeps(lib: Lib, cap: nat, r: Replica, ev: Event)
    requires Inv(lib, cap, r) && Enabled(r, ev)
    requires ev.TakeSnapshot? ==> Settled(lib, r)
    ensures Inv(lib, cap, Step(lib, cap, r, ev))
  {
    match ev
    case Grow(e) => GrowKeeps(lib, cap, r, e);
    case Deliver => DeliverKeeps(lib, cap, r);
    case Apply => ApplyKeeps(lib, cap, r);
    case FinishReplay =>
    case Lookup(name) =>
      LookupKeeps(lib, cap, r, PageOf(lib, name));
    case TakeSnapshot => TakeSnapshotKeeps(lib, cap, r);
    case Crash(walEnd) => CrashKeeps(lib, cap, r, walEnd);
  }

  // ----- whole runs -----

  /** `rs` are the states of a run that takes the events `evs` in order. */
  ghost predicate Run(lib: Lib, cap: nat, rs: seq<Replica>, evs: seq<Event>) {
    && |rs| == |evs| + 1
    && rs[0] == START
    && forall i | 0 <= i < |evs| :: Enabled(rs[i], evs[i]) && rs[i + 1] == Step(lib, cap, rs[i], evs[i])
  }

  /** The newest snapshot before event `i`, if any, was taken while the pending
      entry could not change the store any more. */
  ghost predicate NewestSettled(lib: Lib, rs: seq<Replica>, evs: seq<Event>, i: nat)
    requires i <= |evs| < |rs|
  {
    i == 0 ||
    if evs[i - 1].TakeSnapshot? then
      (rs[i - 1].pending.Some? ==> PendingInLog(rs[i - 1])) && Settled(lib, rs[i - 1])
    else NewestSettled(lib, rs, evs, i - 1)
  }

  /** No crash reloads a snapshot that was taken too early. Other snapshots may
      have been taken at any time. */
  ghost predicate ReloadsSettled(lib: Lib, rs: seq<Replica>, evs: seq<Event>)
    requires |rs| == |evs| + 1
  {
    forall i | 0 <= i < |evs| && evs[i].Crash? :: NewestSettled(lib, rs, evs, i)
  }

  /** The replica as if it never had a snapshot. */
  function Forget(r: Replica): Replica {
    r.(snap := START.snap)
  }

  lemma ForgetKeeps(lib: Lib, cap: nat, r: Replica)
    requires Inv(lib, cap, r)
    ensures Inv(lib, cap, Forget(r))
  {
    hide Version;
    var r' := Forget(r);
    assert Handshake(r') && Current(lib, r') == Current(lib, r) && Applied(r') == Applied(r);
    forall p
      ensures Recovered(r'.snap, r.store.disk, p) == OnDisk(r.store.disk, p)
      ensures Version(lib, r.log, p, NewPage(p), 0)
    {
      NewPageVersion(lib, r.log, p);
    }
  }

  lemma NewPageVersion(lib: Lib, log: seq<Entry>, p: nat)
    ensures Version(lib, log, p, NewPage(p), 0)
  {
  }

  /** Each page of a snapshot, settled or not, is one of its versions. */
  ghost predicate SnapshotPagesOk(lib: Lib, r: Replica) {
    forall p | p in r.snap.pages :: Version(lib, r.log, p, r.snap.pages[p], 0)
  }

  lemma SnapshotPagesKept(lib: Lib, cap: nat, r: Replica, ev: Event)
    requires Inv(lib, cap, Forget(r)) && SnapshotPagesOk(lib, r) && Enabled(r, ev)
    ensures SnapshotPagesOk(lib, Step(lib, cap, r, ev))
  {
    match ev
    case Grow(e) =>
      forall p | p in r.snap.pages
        ensures Version(lib, r.log + [e], p, r.snap.pages[p], 0)
      {
        VersionGrow(lib, r.log, e, p, r.snap.pages[p], 0);
      }
    case TakeSnapshot =>
      forall p | p in r.store.pages
        ensures Version(lib, r.log, p, r.store.pages[p], 0)
      {
        assert Version(lib, r.log, p, Copy(r.store, p), Current(lib, Forget(r)));
      }
    case _ =>
  }

  lemma ForgetCommutes(lib: Lib, cap: nat, r: Replica, ev: Event)
    requires Enabled(r, ev) && !ev.Crash?
    ensures Enabled(Forget(r), ev)
    ensures Forget(Step(lib, cap, r, ev)) == if ev.TakeSnapshot? then Forget(r) else Step(lib, cap, Forget(r), ev)
  {
    hide Commit, GetPage;
  }

  /** Without its snapshot, the replica goes on as with it until a crash. */
  lemma ForgetStep(lib: Lib, cap: nat, r: Replica, ev: Event)
    requires Inv(lib, cap, Forget(r)) && Enabled(r, ev) && !ev.Crash?
    ensures Inv(lib, cap, Forget(Step(lib, cap, r, ev)))
  {
    hide Inv, Step, Enabled, Forget;
    ForgetCommutes(lib, cap, r, ev);
    if !ev.TakeSnapshot? {
      StepKeeps(lib, cap, Forget(r), ev);
    }
  }

  /** A settled snapshot makes up for whatever snapshot there was before. */
  lemma SettledSnapshotRestores(lib: Lib, cap: nat, r: Replica)
    requires Inv(lib, cap, Forget(r)) && Enabled(r, TakeSnapshot)
    requires (r.pending.Some? ==> PendingInLog(r)) && Settled(lib, r)
    ensures Inv(lib, cap, Step(lib, cap, r, TakeSnapshot))
  {
    assert Settled(lib, Forget(r));
    TakeSnapshotKeeps(lib, cap, Forget(r));
    assert Step(lib, cap, Forget(r), TakeSnapshot) == Step(lib, cap, r, TakeSnapshot);
  }

  lemma {:induction false} RunKeeps(lib: Lib, cap: nat, rs: seq<Replica>, evs: seq<Event>, i: nat)
    requires cap >= 1 && Run(lib, cap, rs, evs) && ReloadsSettled(lib, rs, evs)
    requires i < |rs|
    ensures Inv(lib, cap, Forget(rs[i])) && SnapshotPagesOk(lib, rs[i])
    ensures NewestSettled(lib, rs, evs, i) ==> Inv(lib, cap, rs[i])
  {
    hide Inv, SnapshotPagesOk, Step, Settled;
    if i == 0 {
      StartOk(lib, cap);
    } else {
      var r, ev := rs[i - 1], evs[i - 1];
      RunKeeps(lib, cap, rs, evs, i - 1);
      SnapshotPagesKept(lib, cap, r, ev);
      match ev
      case TakeSnapshot =>
        ForgetStep(lib, cap, r, ev);
        if NewestSettled(lib, rs, evs, i) {
          SettledSnapshotRestores(lib, cap, r);
        }
      case Crash(_) =>
        StepKeeps(lib, cap, r, ev);
        ForgetKeeps(lib, cap, rs[i]);
      case _ =>
        ForgetStep(lib, cap, r, ev);
        if NewestSettled(lib, rs, evs, i) {
          StepKeeps(lib, cap, r, ev);
        }
    }
  }

  lemma StartOk(lib: Lib, cap: nat)
    requires cap >= 1
    ensures Inv(lib, cap, START) && Forget(START) == START && SnapshotPagesOk(lib, START)
  {
    assert forall p :: Copy(START.store, p) == NewPage(p) == Recovered(START.snap, START.store.disk, p);
  }

  /** In every run at all: of the entries delivered, at most one proposal is not
      yet applied, it is the last one delivered, and no snapshot claims an index
      that was never delivered. */
  lemma {:induction false} AtMostOnePending(lib: Lib, cap: nat, rs: seq<Replica>, evs: seq<Event>, i: nat)
    requires Run(lib, cap, rs, evs) && i < |rs|
    ensures Handshake(rs[i]) && rs[i].snap.index <= rs[i].high
    ensures forall j | Applied(rs[i]) < j <= rs[i].delivered && rs[i].log[j - 1].Data? :: rs[i].pending == Some(j)
  {
    if i > 0 {
      AtMostOnePending(lib, cap, rs, evs, i - 1);
      HandshakeStep(lib, cap, rs[i - 1], evs[i - 1]);
    }
  }

  lemma HandshakeStep(lib: Lib, cap: nat, r: Replica, ev: Event)
    requires Handshake(r) && r.snap.index <= r.high && Enabled(r, ev)
    ensures var r' := Step(lib, cap, r, ev);
      Handshake(r') && r'.snap.index <= r'.high
  {
    hide Commit, GetPage;
  }

  /** Once no copy can be ahead of the applied index, the view is the fold of
      the log up to it. */
  lemma CaughtUp(lib: Lib, cap: nat, r: Replica)
    requires Inv(lib, cap, Forget(r)) && r.replayTo <= Applied(r)
    ensures View(lib, r.store) == StateAt(lib, r.log, Applied(r))
  {
    var a := Applied(r);
    SettledKeeps(lib, r, a);
    forall q
      ensures Copy(r.store, q).store == Proj(lib, StateAt(lib, r.log, a), q)
    {
      assert Version(lib, r.log, q, Copy(r.store, q), Current(lib, r));
      assert Copy(r.store, q).lastCommitIndex <= a;
    }
    ViewIs(lib, cap, r.store, StateAt(lib, r.log, a));
  }

  /** What a query can see at any time in any run with any number of crashes:
      the flat store after every delivered entry, or after all but the last
      delivered proposal. Without crashes this asks nothing of the snapshots. */
  lemma ServedViewIsFold(lib: Lib, cap: nat, rs: seq<Replica>, evs: seq<Event>, i: nat)
    requires cap >= 1 && Run(lib, cap, rs, evs) && ReloadsSettled(lib, rs, evs)
    requires i < |rs| && rs[i].serving
    ensures var r := rs[i];
      && (r.pending.Some? ==> PendingInLog(r) && r.pending.value <= r.delivered)
      && Applied(r) <= r.delivered <= |r.log|
      && View(lib, r.store) == StateAt(lib, r.log, Applied(r))
      && (r.pending.None? ==> View(lib, r.store) == StateAt(lib, r.log, r.delivered))
      && (forall j | Applied(r) < j <= r.delivered :: r.log[j - 1].Data? ==> r.pending == Some(j))
  {
    hide Inv, ReloadsSettled, NewestSettled, View, StateAt;
    RunKeeps(lib, cap, rs, evs, i);
    InvHandshake(lib, cap, rs[i]);
    CaughtUp(lib, cap, rs[i]);
  }

  /** Every copy of every page, in memory, on disk or in the snapshot, is the
      projection of the log at the copy's own commit index. The copy recovery
      would start from lacks no change at or below the index of a settled
      snapshot. */
  lemma EveryCopyIsAVersion(lib: Lib, cap: nat, rs: seq<Replica>, evs: seq<Event>, i: nat, p: nat)
    requires cap >= 1 && Run(lib, cap, rs, evs) && ReloadsSettled(lib, rs, evs)
    requires i < |rs|
    ensures var r := rs[i];
      && (p in r.store.pages ==> Version(lib, r.log, p, r.store.pages[p], 0))
      && (p in r.store.disk ==> Version(lib, r.log, p, r.store.disk[p], 0))
      && (p in r.snap.pages ==> Version(lib, r.log, p, r.snap.pages[p], 0))
      && (NewestSettled(lib, rs, evs, i) ==>
            && r.snap.index <= |r.log|
            && Version(lib, r.log, p, Recovered(r.snap, r.store.disk, p), r.snap.index))
  {
    RunKeeps(lib, cap, rs, evs, i);
    var r := Forget(rs[i]);
    if p in r.store.pages {
      assert Version(lib, r.log, p, Copy(r.store, p), Current(lib, r));
    }
  }

  /** Deliver and apply until replay ends, then signal it. */
  function ReplayAll(lib: Lib, cap: nat, r: Replica): Replica
    requires r.pending.None? && !r.serving && r.delivered <= r.replayTo <= |r.log|
    decreases r.replayTo - r.delivered
  {
    if r.delivered == r.replayTo then Step(lib, cap, r, FinishReplay)
    else
      var r1 := Step(lib, cap, r, Deliver);
      ReplayAll(lib, cap, if r1.pending.Some? then Step(lib, cap, r1, Event.Apply) else r1)
  }

  lemma {:induction false} ReplayCatchesUp(lib: Lib, cap: nat, r: Replica)
    requires Inv(lib, cap, r)
    requires r.pending.None? && !r.serving && r.delivered <= r.replayTo <= |r.log|
    ensures var r' := ReplayAll(lib, cap, r);
      && Inv(lib, cap, r') && r'.serving && r'.pending.None?
      && r'.delivered == r.replayTo && r'.log == r.log && r'.replayTo == r.replayTo
    decreases r.replayTo - r.delivered
  {
    if r.delivered == r.replayTo {
      StepKeeps(lib, cap, r, FinishReplay);
    } else {
      var r1 := Step(lib, cap, r, Deliver);
      StepKeeps(lib, cap, r, Deliver);
      if r1.pending.Some? {
        StepKeeps(lib, cap, r1, Event.Apply);
        ReplayCatchesUp(lib, cap, Step(lib, cap, r1, Event.Apply));
      } else {
        ReplayCatchesUp(lib, cap, r1);
      }
    }
  }

  /** Crash recovery is exact: crash at any point of any run, including during
      an earlier replay; reloading the snapshot and replaying the write-ahead
      log gives the flat fold of the whole log up to its last index. Of the
      snapshots, only those that a crash reloads have to be settled. */
  lemma CrashRecoveryExact(lib: Lib, cap: nat, rs: seq<Replica>, evs: seq<Event>, i: nat, walEnd: nat)
    requires cap >= 1 && Run(lib, cap, rs, evs) && ReloadsSettled(lib, rs, evs)
    requires i < |rs| && NewestSettled(lib, rs, evs, i) && rs[i].high <= walEnd <= |rs[i].log|
    ensures rs[i].snap.index <= walEnd
    ensures var r := ReplayAll(lib, cap, Step(lib, cap, rs[i], Crash(walEnd)));
      && r.serving && r.delivered == walEnd
      && View(lib, r.store) == StateAt(lib, rs[i].log, walEnd)
  {
    RunKeeps(lib, cap, rs, evs, i);
    StepKeeps(lib, cap, rs[i], Crash(walEnd));
    var r0 := Step(lib, cap, rs[i], Crash(walEnd));
    ReplayCatchesUp(lib, cap, r0);
    ForgetKeeps(lib, cap, ReplayAll(lib, cap, r0));
    CaughtUp(lib, cap, ReplayAll(lib, cap, r0));
  }

  // ----- the snapshot race -----

  lemma RunSnoc(lib: Lib, cap: nat, rs: seq<Replica>, evs: seq<Event>, ev: Event) returns (rs': seq<Replica>)
    requires Run(lib, cap, rs, evs) && Enabled(rs[|evs|], ev)
    ensures rs' == rs + [Step(lib, cap, rs[|evs|], ev)] && Run(lib, cap, rs', evs + [ev])
  {
    rs' := rs + [Step(lib, cap, rs[|evs|], ev)];
  }

  lemma UnsettledStateMoves(lib: Lib, r: Replica)
    requires Handshake(r) && !Settled(lib, r)
    ensures StateAt(lib, r.log, r.delivered) != StateAt(lib, r.log, Applied(r))
  {
    var i := r.pending.value;
    NoDataKeeps(lib, r.log, i, r.delivered);
    StateAtTrim(lib, r.log, i - 1);
    NoOpIffUnchanged(lib, StateAt(lib, r.log, i - 1), r.log[i - 1].op);
  }

  /** The guard `Settled` is exactly what a snapshot needs: take one, crash, and
      restart with nothing left to replay. */
  lemma SnapshotSafeIffSettled(lib: Lib, cap: nat, r: Replica)
    requires Inv(lib, cap, Forget(r)) && r.serving
    ensures var saved := Step(lib, cap, r, TakeSnapshot);
      && r.high == r.delivered
      && (View(lib, Step(lib, cap, saved, Crash(r.high)).store) == StateAt(lib, r.log, r.delivered)
          <==> Settled(lib, r))
  {
    var saved := Step(lib, cap, r, TakeSnapshot);
    assert Step(lib, cap, saved, Crash(r.high)).store == r.store;
    CaughtUp(lib, cap, r);
    if Settled(lib, r) {
      SettledKeeps(lib, r, r.delivered);
    } else {
      UnsettledStateMoves(lib, r);
    }
  }

  /** The start of a run: one proposal is committed and handed to the store. */
  lemma DeliverOne(lib: Lib, cap: nat, op: Op) returns (rs: seq<Replica>, evs: seq<Event>)
    ensures Run(lib, cap, rs, evs) && |evs| == 3 && forall i | 0 <= i < 3 :: !evs[i].Crash? && !evs[i].TakeSnapshot?
    ensures rs[3] == Replica([Data(op)], EMPTY, START.snap, 1, Some(1), 0, true, 1)
  {
    hide Commit, GetPage;
    rs := RunSnoc(lib, cap, [START], [], Grow(Data(op)));
    rs := RunSnoc(lib, cap, rs, [Grow(Data(op))], FinishReplay);
    evs := [Grow(Data(op))] + [FinishReplay];
    rs := RunSnoc(lib, cap, rs, evs, Deliver);
    evs := evs + [Deliver];
  }

  /** The race loses a committed record: add one, snapshot while it is pending,
      crash, recover. */
  lemma UnsettledSnapshotLosesEntry(lib: Lib, cap: nat, str: string) returns (rs: seq<Replica>, evs: seq<Event>)
    requires cap >= 1 && lib.parse(str).Good?
    ensures Run(lib, cap, rs, evs)
    ensures var r := rs[|evs|];
      && r.serving && r.pending.None? && r.delivered == 1 && |r.log| == 1
      && View(lib, r.store) == map[]
      && StateAt(lib, r.log, 1) != map[]
  {
    var op := AddRR(str);
    rs, evs := DeliverOne(lib, cap, op);
    rs := RunSnoc(lib, cap, rs, evs, TakeSnapshot);
    evs := evs + [TakeSnapshot];
    rs := RunSnoc(lib, cap, rs, evs, Crash(1));
    evs := evs + [Crash(1)];
    rs := RunSnoc(lib, cap, rs, evs, FinishReplay);
    evs := evs + [FinishReplay];
    assert Names(EMPTY) == {};
    NoOpIffUnchanged(lib, map[], op);
    assert StateAt(lib, rs[|evs|].log, 0) == map[];
  }

  // ----- every future of a snapshot -----

  /** A longer run, without a newer snapshot. */
  ghost predicate Future(lib: Lib, cap: nat, rs: seq<Replica>, evs: seq<Event>, rs': seq<Replica>, evs': seq<Event>) {
    && Run(lib, cap, rs', evs') && rs <= rs' && evs <= evs' && |rs| == |evs| + 1
    && forall i | |evs| <= i < |evs'| :: !evs'[i].TakeSnapshot?
  }

  /** Recovery from a crash now gives the fold of the log up to its end. */
  ghost predicate Recovers(lib: Lib, cap: nat, r: Replica, walEnd: nat) {
    r.high <= walEnd <= |r.log| ==>
      && r.snap.index <= walEnd
      && View(lib, ReplayAll(lib, cap, Step(lib, cap, r, Crash(walEnd))).store) == StateAt(lib, r.log, walEnd)
  }

  lemma {:induction false} NewestSettledPrefix(lib: Lib, rs: seq<Replica>, evs: seq<Event>,
                                               rs': seq<Replica>, evs': seq<Event>, i: nat)
    requires rs <= rs' && evs <= evs' && i <= |evs| < |rs| && |evs'| < |rs'|
    ensures NewestSettled(lib, rs, evs, i) == NewestSettled(lib, rs', evs', i)
  {
    hide Settled;
    if i > 0 {
      NewestSettledPrefix(lib, rs, evs, rs', evs', i - 1);
    }
  }

  /** Whether the newest snapshot was settled stays the same until there is
      another one. */
  lemma {:induction false} FutureNewest(lib: Lib, cap: nat, rs: seq<Replica>, evs: seq<Event>,
                                        rs': seq<Replica>, evs': seq<Event>, i: nat)
    requires Future(lib, cap, rs, evs, rs', evs') && |evs| <= i <= |evs'|
    ensures NewestSettled(lib, rs', evs', i) == NewestSettled(lib, rs, evs, |evs|)
  {
    hide Settled;
    if i == |evs| {
      NewestSettledPrefix(lib, rs, evs, rs', evs', i);
    } else {
      FutureNewest(lib, cap, rs, evs, rs', evs', i - 1);
    }
  }

  lemma FutureReloads(lib: Lib, cap: nat, rs: seq<Replica>, evs: seq<Event>, rs': seq<Replica>, evs': seq<Event>)
    requires Future(lib, cap, rs, evs, rs', evs') && ReloadsSettled(lib, rs, evs)
    requires NewestSettled(lib, rs, evs, |evs|) || forall i | |evs| <= i < |evs'| :: !evs'[i].Crash?
    ensures ReloadsSettled(lib, rs', evs')
  {
    hide NewestSettled;
    forall i | 0 <= i < |evs'| && evs'[i].Crash?
      ensures NewestSettled(lib, rs', evs', i)
    {
      if i < |evs| {
        NewestSettledPrefix(lib, rs, evs, rs', evs', i);
      } else {
        FutureNewest(lib, cap, rs, evs, rs', evs', i);
      }
    }
  }

  /** A snapshot taken in a run recovers every future of the run, crashes and
      replays included, if and only if it was settled. */
  lemma SnapshotSafeForEverIff(lib: Lib, cap: nat, rs: seq<Replica>, evs: seq<Event>)
    requires cap >= 1 && Run(lib, cap, rs, evs) && ReloadsSettled(lib, rs, evs) && rs[|evs|].serving
    ensures Inv(lib, cap, Forget(rs[|evs|]))
    ensures var rs1, evs1 := rs + [Step(lib, cap, rs[|evs|], TakeSnapshot)], evs + [TakeSnapshot];
      (forall rs', evs', walEnd | Future(lib, cap, rs1, evs1, rs', evs') :: Recovers(lib, cap, rs'[|evs'|], walEnd))
        <==> Settled(lib, rs[|evs|])
  {
    hide Inv, Step, Settled, Recovers, NewestSettled, StateAt, View;
    RunKeeps(lib, cap, rs, evs, |evs|);
    var r := rs[|evs|];
    var rs1 := RunSnoc(lib, cap, rs, evs, TakeSnapshot);
    var evs1 := evs + [TakeSnapshot];
    SnapshotSafeNow(lib, cap, r);
    assert Future(lib, cap, rs1, evs1, rs1, evs1);
    NewestNow(lib, rs1, evs1);
    forall i | 0 <= i < |evs| { NewestSettledPrefix(lib, rs, evs, rs1, evs1, i); }
    assert ReloadsSettled(lib, rs1, evs1);
    if Settled(lib, r) {
      forall rs', evs', walEnd | Future(lib, cap, rs1, evs1, rs', evs')
        ensures Recovers(lib, cap, rs'[|evs'|], walEnd)
      {
        FutureRecovers(lib, cap, rs1, evs1, rs', evs', walEnd);
      }
    } else {
      assert !Recovers(lib, cap, rs1[|evs1|], r.high);
    }
  }

  lemma NewestNow(lib: Lib, rs: seq<Replica>, evs: seq<Event>)
    requires |rs| == |evs| + 1 && evs != [] && evs[|evs| - 1].TakeSnapshot?
    requires rs[|evs| - 1].pending.Some? ==> PendingInLog(rs[|evs| - 1])
    ensures NewestSettled(lib, rs, evs, |evs|) == Settled(lib, rs[|evs| - 1])
  {
  }

  lemma FutureRecovers(lib: Lib, cap: nat, rs: seq<Replica>, evs: seq<Event>, rs': seq<Replica>, evs': seq<Event>, walEnd: nat)
    requires cap >= 1 && Future(lib, cap, rs, evs, rs', evs')
    requires ReloadsSettled(lib, rs, evs) && NewestSettled(lib, rs, evs, |evs|)
    ensures Recovers(lib, cap, rs'[|evs'|], walEnd)
  {
    hide NewestSettled, Step, StateAt, View;
    FutureNewest(lib, cap, rs, evs, rs', evs', |evs'|);
    FutureReloads(lib, cap, rs, evs, rs', evs');
    var r := rs'[|evs'|];
    if r.high <= walEnd <= |r.log| {
      CrashRecoveryExact(lib, cap, rs', evs', |evs'|, walEnd);
    }
  }

  /** With nothing left to replay. */
  lemma SnapshotSafeNow(lib: Lib, cap: nat, r: Replica)
    requires Inv(lib, cap, Forget(r)) && r.serving
    ensures var saved := Step(lib, cap, r, TakeSnapshot);
      (r.pending.Some? ==> PendingInLog(r)) && (Recovers(lib, cap, saved, r.high) <==> Settled(lib, r))
  {
    hide Inv, Settled, StateAt, View, Step;
    SnapshotSafeIffSettled(lib, cap, r);
    InvHandshake(lib, cap, r);
    SavedReplay(lib, cap, r);
  }

  lemma InvHandshake(lib: Lib, cap: nat, r: Replica)
    requires Inv(lib, cap, Forget(r))
    ensures Handshake(r)
  {
  }

  lemma SavedReplay(lib: Lib, cap: nat, r: Replica)
    requires r.serving && r.high == r.delivered <= |r.log|
    ensures var saved := Step(lib, cap, r, TakeSnapshot);
      var restarted := Step(lib, cap, saved, Crash(r.high));
      && saved.high == r.high && saved.log == r.log && saved.snap.index == r.high
      && restarted.delivered == restarted.replayTo && restarted.pending.None? && !restarted.serving
      && ReplayAll(lib, cap, restarted).store == restarted.store
  {
    hide Commit, GetPage;
  }

  // ----- queries -----

  /** Any names a query looks up, one after the other, are steps of a run. */
  lemma {:induction false} LookupsInRun(lib: Lib, cap: nat, rs: seq<Replica>, evs: seq<Event>, names: seq<string>)
    returns (rs': seq<Replica>, evs': seq<Event>)
    requires Run(lib, cap, rs, evs) && rs[|evs|].serving
    ensures Future(lib, cap, rs, evs, rs', evs') && forall i | |evs| <= i < |evs'| :: evs'[i].Lookup?
    ensures rs'[|evs'|] == rs[|evs|].(store := GetPages(cap, rs[|evs|].store, PagesOf(lib, names)))
  {
    hide GetPage, Commit;
    if names == [] {
      rs', evs' := rs, evs;
      assert PagesOf(lib, names) == [];
    } else {
      var n := |names| - 1;
      rs', evs' := LookupsInRun(lib, cap, rs, evs, names[..n]);
      rs' := RunSnoc(lib, cap, rs', evs', Lookup(names[n]));
      evs' := evs' + [Lookup(names[n])];
      assert PagesOf(lib, names)[..n] == PagesOf(lib, names[..n]);
    }
  }

  // ----- snapshots on another node -----

  /** A snapshot holds resident pages only. Installed over another node's disk it
      reproduces the store exactly when, for every page that was not resident,
      that disk has the records that the disk of the node that took it has. */
  lemma InstallExactIff(lib: Lib, cap: nat, r: Replica, disk: map<nat, Page>)
    requires Inv(lib, cap, Forget(r)) && r.serving && Settled(lib, r) && PagesPlaced(lib, disk)
    ensures View(lib, Restore(Step(lib, cap, r, TakeSnapshot).snap, disk)) == StateAt(lib, r.log, r.delivered)
      <==> forall p | p !in r.store.pages :: OnDisk(disk, p).store == OnDisk(r.store.disk, p).store
  {
    var installed := Restore(Step(lib, cap, r, TakeSnapshot).snap, disk);
    CaughtUp(lib, cap, r);
    SettledKeeps(lib, r, r.delivered);
    if forall p | p !in r.store.pages :: OnDisk(disk, p).store == OnDisk(r.store.disk, p).store {
      ViewDetermined(lib, r.store, installed);
    }
    if View(lib, installed) == View(lib, r.store) {
      forall p | p !in r.store.pages
        ensures OnDisk(disk, p).store == OnDisk(r.store.disk, p).store
      {
        CopiesOfView(lib, cap, r.store, p);
        CopiesOfView(lib, cap, installed, p);
        assert Copy(installed, p) == OnDisk(disk, p);
      }
    }
  }

  /** On a node with an empty disk: exactly when nothing but empty pages had been
      swapped out. */
  lemma InstallOnFreshNode(lib: Lib, cap: nat, r: Replica)
    requires Inv(lib, cap, Forget(r)) && r.serving && Settled(lib, r)
    ensures View(lib, Restore(Step(lib, cap, r, TakeSnapshot).snap, map[])) == StateAt(lib, r.log, r.delivered)
      <==> forall p | p in r.store.disk && p !in r.store.pages :: r.store.disk[p].store == map[]
  {
    InstallExactIff(lib, cap, r, map[]);
    assert forall p :: OnDisk(map[], p).store == map[];
    assert forall p | p in r.store.disk :: OnDisk(r.store.disk, p) == r.store.disk[p];
  }

  /** A run that gets there: with room for one page, a record whose page is
      swapped out by a lookup before the snapshot is missing on a fresh node. */
  lemma InstallLosesRecord(lib: Lib, str: string, other: string) returns (rs: seq<Replica>, evs: seq<Event>)
    requires lib.parse(str).Good? && PageOf(lib, other) != PageOf(lib, lib.lower(lib.parse(str).rr.name))
    ensures Run(lib, 1, rs, evs) && ReloadsSettled(lib, rs, evs)
    ensures var r := rs[|evs|];
      && r.serving && r.pending.None? && r.delivered == r.snap.index == 1 && |r.log| == 1
      && View(lib, Restore(r.snap, r.store.disk)) == StateAt(lib, r.log, 1)
      && View(lib, Restore(r.snap, map[])) != StateAt(lib, r.log, 1)
  {
    rs, evs := SwapOutOne(lib, str, other);
    rs := RunSnoc(lib, 1, rs, evs, TakeSnapshot);
    evs := evs + [TakeSnapshot];
    hide Commit, GetPage, Inv, StateAt, View;
    SwappedOut(lib, str, other);
    RunKeeps(lib, 1, rs, evs, |evs|);
    CaughtUp(lib, 1, rs[|evs|]);
    InstallOnFreshNode(lib, 1, rs[|evs|]);
  }

  lemma SwapOutOne(lib: Lib, str: string, other: string) returns (rs: seq<Replica>, evs: seq<Event>)
    requires lib.parse(str).Good?
    ensures Run(lib, 1, rs, evs) && forall i | 0 <= i < |evs| :: !evs[i].Crash?
    ensures var store := GetPage(1, Commit(lib, 1, EMPTY, AddRR(str), 1), PageOf(lib, other));
      rs[|evs|] == Replica([Data(AddRR(str))], store, START.snap, 1, None, 0, true, 1)
  {
    hide Commit, GetPage;
    rs, evs := DeliverOne(lib, 1, AddRR(str));
    rs := RunSnoc(lib, 1, rs, evs, Event.Apply);
    evs := evs + [Event.Apply];
    rs := RunSnoc(lib, 1, rs, evs, Lookup(other));
    evs := evs + [Lookup(other)];
  }

  /** The state of the store after one add and a lookup on another page. */
  lemma SwappedOut(lib: Lib, str: string, other: string)
    requires lib.parse(str).Good? && PageOf(lib, other) != PageOf(lib, lib.lower(lib.parse(str).rr.name))
    ensures var p, q := PageOf(lib, lib.lower(lib.parse(str).rr.name)), PageOf(lib, other);
      var s := GetPage(1, Commit(lib, 1, EMPTY, AddRR(str), 1), q);
      && p in s.disk && s.disk[p].store == InsertInto(lib, map[], lib.parse(str).rr) != map[]
      && s.pages == map[q := NewPage(q)]
  {
  }
}

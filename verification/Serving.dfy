/** The commit loop of an initialised store: what it makes of the messages that
    the raft node sends, said without the loop itself. */
module Serving {
  import opened Records
  import opened FlatStore
  import opened Pages
  import opened Recovery
  import opened Raft
  import opened Startup
  import opened PagedStore
  import LeaderSnapshot

  // ----- the paged store -----

  lemma ReadPlainEntry(lib: Lib, cap: nat, s: Paged, log: RaftLog, i: nat, lastIndex: nat,
                       msgs: seq<CommitMsg>, k: nat, load: nat -> Option<Snapshot>, isInit: bool)
    requires i < |log| && i + 1 != lastIndex
    requires var e := EntryMessages(log, i, lastIndex);
      k + |e| <= |msgs| && forall j | 0 <= j < |e| :: msgs[k + j] == e[j]
    ensures Read(lib, cap, s, msgs, k, load, isInit)
         == Read(lib, cap, if log[i].Normal? then Commit(lib, cap, s, log[i].op, i + 1) else s,
                 msgs, k + |EntryMessages(log, i, lastIndex)|, load, isInit)
  {
    var e := EntryMessages(log, i, lastIndex);
    if e != [] {
      assert msgs[k + 0] == e[0];
    }
  }

  /** Without the signal in it, a range is committed entry by entry, while
      initialising and while serving. */
  lemma {:induction false} ReadRange(lib: Lib, cap: nat, s: Paged, log: RaftLog, a: nat, e: nat, lastIndex: nat,
                                     msgs: seq<CommitMsg>, k: nat, load: nat -> Option<Snapshot>, isInit: bool)
    requires a <= e <= |log| && !(a < lastIndex <= e) && CarriesAt(msgs, k, log, a, e, lastIndex)
    ensures Read(lib, cap, s, msgs, k, load, isInit)
         == Read(lib, cap, CommitRange(lib, cap, s, log, a, e), msgs, k + |Messages(log, a, e, lastIndex)|, load, isInit)
    decreases e - a
  {
    hide Read, EntryMessages, CarriesAt, Commit;
    if a < e {
      CarriesRest(msgs, k, log, a, e, lastIndex);
      ReadPlainEntry(lib, cap, s, log, a, lastIndex, msgs, k, load, isInit);
      ReadRange(lib, cap, if log[a].Normal? then Commit(lib, cap, s, log[a].op, a + 1) else s, log, a + 1, e, lastIndex,
                msgs, k + |EntryMessages(log, a, lastIndex)|, load, isInit);
    }
  }

  /** The serving loop commits every proposal of a range, each with its own index. */
  lemma ServingCommitsRange(lib: Lib, cap: nat, s: Paged, log: RaftLog, a: nat, e: nat, lastIndex: nat,
                            load: nat -> Option<Snapshot>)
    requires a <= e <= |log| && !(a < lastIndex <= e)
    ensures var msgs := Messages(log, a, e, lastIndex);
      Read(lib, cap, s, msgs, 0, load, false) == (CommitRange(lib, cap, s, log, a, e), |msgs|)
  {
    hide CommitRange, Messages, CarriesAt;
    LeaderSnapshot.CarriesAll(log, a, e, lastIndex);
    ReadRange(lib, cap, s, log, a, e, lastIndex, Messages(log, a, e, lastIndex), 0, load, false);
  }

  lemma NilStep(lib: Lib, cap: nat, s: Paged, msgs: seq<CommitMsg>, k: nat, load: nat -> Option<Snapshot>)
    requires k < |msgs| && msgs[k] == ReplayDone
    ensures Read(lib, cap, s, msgs, k, load, false)
         == if load(k).None? then (s, k + 1)
            else Read(lib, cap, Paged(load(k).value.pages, load(k).value.lru, s.disk), msgs, k + 1, load, false)
  {
  }

  /** On a nil the serving loop goes on from the newest snapshot over the disk it
      has, or ends when there is none. */
  lemma ServingLoadsOnNil(lib: Lib, cap: nat, s: Paged, log: RaftLog, a: nat, e: nat, b: nat, n: nat, lastIndex: nat,
                          load: nat -> Option<Snapshot>)
    requires a <= e <= |log| && b <= n <= |log| && !(a < lastIndex <= e) && !(b < lastIndex <= n)
    ensures var front, rest := Messages(log, a, e, lastIndex), Messages(log, b, n, lastIndex);
      var s', newest := CommitRange(lib, cap, s, log, a, e), load(|front|);
      Read(lib, cap, s, front + [ReplayDone] + rest, 0, load, false)
        == if newest.None? then (s', |front| + 1)
           else (CommitRange(lib, cap, Paged(newest.value.pages, newest.value.lru, s'.disk), log, b, n),
                 |front| + 1 + |rest|)
  {
    hide CommitRange, Messages, CarriesAt, Read;
    var front, rest := Messages(log, a, e, lastIndex), Messages(log, b, n, lastIndex);
    var msgs, s' := front + [ReplayDone] + rest, CommitRange(lib, cap, s, log, a, e);
    CarriesWithin(msgs, front, [ReplayDone] + rest, [], log, a, e, lastIndex);
    CarriesWithin(msgs, rest, [], front + [ReplayDone], log, b, n, lastIndex);
    ReadRange(lib, cap, s, log, a, e, lastIndex, msgs, 0, load, false);
    NilStep(lib, cap, s', msgs, |front|, load);
    if load(|front|).Some? {
      var loaded := Paged(load(|front|).value.pages, load(|front|).value.lru, s'.disk);
      ReadRange(lib, cap, loaded, log, b, n, lastIndex, msgs, |front| + 1, load, false);
      ReadEnd(lib, cap, CommitRange(lib, cap, loaded, log, b, n), msgs, load);
    }
  }

  lemma CarriesWithin(msgs: seq<CommitMsg>, m: seq<CommitMsg>, after: seq<CommitMsg>, before: seq<CommitMsg>,
                      log: RaftLog, a: nat, e: nat, lastIndex: nat)
    requires a <= e <= |log| && m == Messages(log, a, e, lastIndex) && msgs == before + m + after
    ensures CarriesAt(msgs, |before|, log, a, e, lastIndex)
  {
    hide Messages;
  }

  lemma ReadEnd(lib: Lib, cap: nat, s: Paged, msgs: seq<CommitMsg>, load: nat -> Option<Snapshot>)
    ensures Read(lib, cap, s, msgs, |msgs|, load, false) == (s, |msgs|)
  {
  }

  // ----- the in-memory store -----

  /** The same for the in-memory store: every entry applied, and on a nil the
      newest snapshot in place of everything, or the end. */
  lemma FlatServingLoadsOnNil(lib: Lib, s: Store, log: RaftLog, a: nat, e: nat, b: nat, n: nat, lastIndex: nat,
                              load: nat -> Option<Store>)
    requires a <= e <= |log| && b <= n <= |log| && !(a < lastIndex <= e) && !(b < lastIndex <= n)
    ensures var front, rest := Messages(log, a, e, lastIndex), Messages(log, b, n, lastIndex);
      var newest := load(|front|);
      ReadFlat(lib, s, front + [ReplayDone] + rest, 0, load, false)
        == if newest.None? then (Replay(lib, s, Entries(log), a, e), |front| + 1)
           else (Replay(lib, newest.value, Entries(log), b, n), |front| + 1 + |rest|)
  {
    hide Replay, Messages, CarriesAt, ReadFlat;
    var front, rest := Messages(log, a, e, lastIndex), Messages(log, b, n, lastIndex);
    var msgs, s' := front + [ReplayDone] + rest, Replay(lib, s, Entries(log), a, e);
    CarriesWithin(msgs, front, [ReplayDone] + rest, [], log, a, e, lastIndex);
    CarriesWithin(msgs, rest, [], front + [ReplayDone], log, b, n, lastIndex);
    LeaderSnapshot.ReadFlatRange(lib, s, log, a, e, lastIndex, msgs, 0, load, false);
    FlatNilStep(lib, s', msgs, |front|, load);
    if load(|front|).Some? {
      LeaderSnapshot.ReadFlatRange(lib, load(|front|).value, log, b, n, lastIndex, msgs, |front| + 1, load, false);
      LeaderSnapshot.ReadFlatEnd(lib, Replay(lib, load(|front|).value, Entries(log), b, n), msgs, load);
    }
  }

  lemma FlatNilStep(lib: Lib, s: Store, msgs: seq<CommitMsg>, k: nat, load: nat -> Option<Store>)
    requires k < |msgs| && msgs[k] == ReplayDone
    ensures ReadFlat(lib, s, msgs, k, load, false)
         == if load(k).None? then (s, k + 1) else ReadFlat(lib, load(k).value, msgs, k + 1, load, false)
  {
  }

  // ----- in a run -----

  /** Committing a range is delivering and applying its entries in the run. */
  lemma {:induction false} RangeInRun(lib: Lib, cap: nat, rs: seq<Replica>, evs: seq<Event>, log: RaftLog, n: nat)
    returns (rs': seq<Replica>, evs': seq<Event>)
    requires Run(lib, cap, rs, evs) && rs[|evs|].log == Entries(log)
    requires rs[|evs|].serving && rs[|evs|].pending.None? && rs[|evs|].delivered <= n <= |log|
    ensures Future(lib, cap, rs, evs, rs', evs') && forall i | |evs| <= i < |evs'| :: evs'[i].Deliver? || evs'[i].Apply?
    ensures var r, r' := rs[|evs|], rs'[|evs'|];
      && r'.store == CommitRange(lib, cap, r.store, log, r.delivered, n)
      && r'.log == r.log && r'.serving && r'.pending.None? && r'.delivered == n
    decreases n - rs[|evs|].delivered
  {
    hide Commit, GetPage;
    var r := rs[|evs|];
    rs', evs' := rs, evs;
    if r.delivered < n {
      rs' := RunSnoc(lib, cap, rs', evs', Deliver);
      evs' := evs' + [Deliver];
      if log[r.delivered].Normal? {
        rs' := RunSnoc(lib, cap, rs', evs', Event.Apply);
        evs' := evs' + [Event.Apply];
      }
      var rs1, evs1 := rs', evs';
      rs', evs' := RangeInRun(lib, cap, rs1, evs1, log, n);
      assert rs <= rs1 <= rs' && evs <= evs1 <= evs';
    }
  }

  /** A replica that serves and has nothing pending, at any point of any run with
      any number of crashes: once the commit loop has read what the raft node
      sends for entries up to `n`, the store is the fold of the log up to `n`. */
  method ServeRange(ghost rs: seq<Replica>, ghost evs: seq<Event>, ghost log: RaftLog, ghost n: nat, ghost lastIndex: nat,
                    s: PagedDnsStore, msgs: seq<CommitMsg>, load: nat -> Option<Snapshot>)
    returns (consumed: nat, ghost rs': seq<Replica>, ghost evs': seq<Event>)
    requires s.Valid() && Loadable(s.lib, s.cap, load)
    requires s.cap >= 1 && Run(s.lib, s.cap, rs, evs) && ReloadsSettled(s.lib, rs, evs)
    requires var r := rs[|evs|];
      && r.store == s.Model && r.log == Entries(log) && r.serving && r.pending.None?
      && lastIndex <= r.delivered <= n <= |log|
      && msgs == Messages(log, r.delivered, n, lastIndex)
    modifies s, s.Repr
    ensures s.Valid() && fresh(s.Repr - old(s.Repr))
    ensures View(s.lib, s.Model) == StateAt(s.lib, Entries(log), n)
    ensures consumed == |msgs|
    ensures Future(s.lib, s.cap, rs, evs, rs', evs') && ReloadsSettled(s.lib, rs', evs')
    ensures rs'[|evs'|].store == s.Model && rs'[|evs'|].delivered == n && rs'[|evs'|].serving
  {
    hide ReloadsSettled, View, StateAt, CommitRange, Messages, Read, Loadable;
    ghost var r := rs[|evs|];
    rs', evs' := RangeInRun(s.lib, s.cap, rs, evs, log, n);
    FutureReloads(s.lib, s.cap, rs, evs, rs', evs');
    ServedViewIsFold(s.lib, s.cap, rs', evs', |evs'|);
    ServingCommitsRange(s.lib, s.cap, s.Model, log, r.delivered, n, lastIndex, load);
    consumed := s.ReadCommits(msgs, None, load, false);
  }
}

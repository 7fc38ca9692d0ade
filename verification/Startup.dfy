/** Restart end to end: what the raft node publishes after a restart is what the
    store's initial commit loop needs to reach the whole log. */
module Startup {
  import opened Records
  import opened FlatStore
  import opened Pages
  import opened Recovery
  import opened Raft
  import opened PagedStore

  /** The log as the store sees it. */
  function Entries(log: RaftLog): (r: seq<Entry>)
    ensures |r| == |log|
    ensures forall i | 0 <= i < |log| :: r[i] == if log[i].Normal? then Data(log[i].op) else NoData
  {
    seq(|log|, i requires 0 <= i < |log| => if log[i].Normal? then Data(log[i].op) else NoData)
  }

  function CommitRange(lib: Lib, cap: nat, s: Paged, log: RaftLog, a: nat, b: nat): Paged
    requires a <= b <= |log|
    decreases b - a
  {
    if a == b then s
    else if log[a].Normal? then CommitRange(lib, cap, Commit(lib, cap, s, log[a].op, a + 1), log, a + 1, b)
    else CommitRange(lib, cap, s, log, a + 1, b)
  }

  /** What a raft node restarted at snapshot index `a` with a write-ahead log up
      to `b` sends until the signal that replay is done. */
  function ReplayMessages(log: RaftLog, a: nat, b: nat): seq<CommitMsg>
    requires a <= b <= |log|
  {
    if a == b then [ReplayDone] else Messages(log, a, b, b)
  }

  /** The messages of one entry make the initial loop apply its proposal, and
      end it when they hold the signal. */
  lemma ReadEntry(lib: Lib, cap: nat, s: Paged, log: RaftLog, i: nat, lastIndex: nat,
                  msgs: seq<CommitMsg>, k: nat, load: nat -> Option<Snapshot>)
    requires i < |log|
    requires var e := EntryMessages(log, i, lastIndex);
      k + |e| <= |msgs| && forall j | 0 <= j < |e| :: msgs[k + j] == e[j]
    ensures var k' := k + |EntryMessages(log, i, lastIndex)|;
      var s' := if log[i].Normal? then Commit(lib, cap, s, log[i].op, i + 1) else s;
      Read(lib, cap, s, msgs, k, load, true)
        == if i + 1 == lastIndex then (s', k') else Read(lib, cap, s', msgs, k', load, true)
  {
    var e := EntryMessages(log, i, lastIndex);
    if e != [] {
      assert msgs[k + 0] == e[0];
      if |e| == 2 {
        assert msgs[k + 1] == e[1];
      }
    }
  }

  /** At position `k` the channel carries the messages of `a` to `b - 1`. */
  ghost predicate CarriesAt(msgs: seq<CommitMsg>, k: nat, log: RaftLog, a: nat, b: nat, lastIndex: nat)
    requires a <= b <= |log|
  {
    var m := Messages(log, a, b, lastIndex);
    k + |m| <= |msgs| && forall j | 0 <= j < |m| :: msgs[k + j] == m[j]
  }

  lemma MessagesCons(log: RaftLog, a: nat, b: nat, lastIndex: nat)
    requires a < b <= |log|
    ensures Messages(log, a, b, lastIndex) == EntryMessages(log, a, lastIndex) + Messages(log, a + 1, b, lastIndex)
  {
    MessagesConcat(log, a, a + 1, b, lastIndex);
    assert Messages(log, a, a + 1, lastIndex) == EntryMessages(log, a, lastIndex);
  }

  lemma CarriesRest(msgs: seq<CommitMsg>, k: nat, log: RaftLog, a: nat, b: nat, lastIndex: nat)
    requires a < b <= |log| && CarriesAt(msgs, k, log, a, b, lastIndex)
    ensures var e := EntryMessages(log, a, lastIndex);
      && k + |e| <= |msgs| && (forall j | 0 <= j < |e| :: msgs[k + j] == e[j])
      && CarriesAt(msgs, k + |e|, log, a + 1, b, lastIndex)
      && |Messages(log, a, b, lastIndex)| == |e| + |Messages(log, a + 1, b, lastIndex)|
  {
    MessagesCons(log, a, b, lastIndex);
    var e, m, rest := EntryMessages(log, a, lastIndex), Messages(log, a, b, lastIndex), Messages(log, a + 1, b, lastIndex);
    forall j | 0 <= j < |rest|
      ensures msgs[k + |e| + j] == rest[j]
    {
      assert m[|e| + j] == rest[j];
      assert msgs[k + (|e| + j)] == m[|e| + j];
    }
    forall j | 0 <= j < |e|
      ensures msgs[k + j] == e[j]
    {
      assert msgs[k + j] == m[j];
    }
  }

  lemma {:induction false} ReadReplay(lib: Lib, cap: nat, s: Paged, log: RaftLog, a: nat, b: nat,
                                      msgs: seq<CommitMsg>, k: nat, load: nat -> Option<Snapshot>)
    requires a < b <= |log| && CarriesAt(msgs, k, log, a, b, b)
    ensures Read(lib, cap, s, msgs, k, load, true)
         == (CommitRange(lib, cap, s, log, a, b), k + |Messages(log, a, b, b)|)
    decreases b - a
  {
    hide Read, EntryMessages, CarriesAt, Commit;
    CarriesRest(msgs, k, log, a, b, b);
    ReadEntry(lib, cap, s, log, a, b, msgs, k, load);
    var e := EntryMessages(log, a, b);
    var s' := if log[a].Normal? then Commit(lib, cap, s, log[a].op, a + 1) else s;
    if a + 1 < b {
      ReadReplay(lib, cap, s', log, a + 1, b, msgs, k + |e|, load);
    }
  }

  lemma {:induction false} ReplayAllCommits(lib: Lib, cap: nat, r: Replica, log: RaftLog)
    requires r.log == Entries(log)
    requires r.pending.None? && !r.serving && r.delivered <= r.replayTo <= |r.log|
    ensures ReplayAll(lib, cap, r).store == CommitRange(lib, cap, r.store, log, r.delivered, r.replayTo)
    decreases r.replayTo - r.delivered
  {
    hide Commit, GetPage;
    if r.delivered < r.replayTo {
      var r1 := Step(lib, cap, r, Deliver);
      if r1.pending.Some? {
        ReplayAllCommits(lib, cap, Step(lib, cap, r1, Event.Apply), log);
      } else {
        ReplayAllCommits(lib, cap, r1, log);
      }
    }
  }

  /** Crash anywhere in any run and restart: the initial commit loop, reading
      what the raft node publishes, takes exactly the messages up to the one
      signal, and leaves the store at the fold of the log up to the end of the
      write-ahead log. Whatever the channel carries later is not touched. */
  lemma RestartReachesLogEnd(lib: Lib, cap: nat, rs: seq<Replica>, evs: seq<Event>, i: nat,
                             log: RaftLog, walEnd: nat, more: seq<CommitMsg>, load: nat -> Option<Snapshot>)
    requires cap >= 1 && Run(lib, cap, rs, evs) && ReloadsSettled(lib, rs, evs)
    requires i < |rs| && NewestSettled(lib, rs, evs, i) && rs[i].log == Entries(log) && rs[i].high <= walEnd <= |log|
    ensures rs[i].snap.index <= walEnd
    ensures var msgs := ReplayMessages(log, rs[i].snap.index, walEnd);
      var (s, taken) := Read(lib, cap, Restore(rs[i].snap, rs[i].store.disk), msgs + more, 0, load, true);
      taken == |msgs| && View(lib, s) == StateAt(lib, rs[i].log, walEnd)
  {
    CrashRecoveryExact(lib, cap, rs, evs, i, walEnd);
    RunKeeps(lib, cap, rs, evs, i);
    var r0 := Step(lib, cap, rs[i], Crash(walEnd));
    var a := rs[i].snap.index;
    var msgs := ReplayMessages(log, a, walEnd);
    ReplayAllCommits(lib, cap, r0, log);
    if a == walEnd {
      assert (msgs + more)[0] == ReplayDone;
    } else {
      ReadReplay(lib, cap, r0.store, log, a, walEnd, msgs + more, 0, load);
    }
  }

  /** The index a restarted node signals the end of replay at; 0 is never met. */
  function SignalIndex(snapIndex: nat, walEnd: nat): nat {
    if snapIndex < walEnd then walEnd else 0
  }

  /** The same with the objects of the program: a store over the disk the crash
      left, and a raft node restarted at the snapshot. If no batch of committed
      entries stops the node and they reach the end of the write-ahead log, the
      node gets there and the initial commit loop makes the store hold the fold
      of the log up to it. */
  method RestartReplica(ghost rs: seq<Replica>, ghost evs: seq<Event>, ghost i: nat,
                        lib: Lib, cap: nat, id: uint64, snap: Snapshot, disk: map<nat, Page>,
                        log: RaftLog, walEnd: uint64, batches: seq<ReadyBatch>, load: nat -> Option<Snapshot>)
    returns (node: RaftNode, store: PagedDnsStore, outcome: Outcome)
    requires cap >= 1 && Run(lib, cap, rs, evs) && ReloadsSettled(lib, rs, evs)
    requires i < |rs| && NewestSettled(lib, rs, evs, i)
    requires rs[i].log == Entries(log) && rs[i].high <= walEnd as int <= |log|
    requires snap == rs[i].snap && disk == rs[i].store.disk
    requires InLog(log, snap.index, batches)
    requires forall k | 0 <= k < |batches| :: walEnd <= batches[k].stored && batches[k].stored as int < MAX64
    requires forall k, l | 0 <= k <= l < |batches| :: batches[k].hi <= batches[l].stored as int
    requires Loadable(lib, cap, load)
    ensures store.Valid()
    ensures var passed := AllPass(log, id, SignalIndex(snap.index, walEnd as int), snap.index, batches, |batches|);
      && (outcome == Running <==> passed)
      && (passed ==> node.appliedIndex as int == Reached(snap.index, batches))
      && (passed && Reached(snap.index, batches) >= walEnd as int ==>
            View(lib, store.Model) == StateAt(lib, rs[i].log, walEnd as int))
  {
    hide Run, ReloadsSettled, NewestSettled, Read, View, StateAt, Messages, Inv, BatchPasses, Gap;
    RestartReachesLogEnd(lib, cap, rs, evs, i, log, walEnd as int, [], load);
    SnapshotLoadable(lib, cap, rs, evs, i);
    store := new PagedDnsStore(lib, cap, disk);
    node := new RaftNode(id, snap.index as uint64, walEnd);
    ghost var handled;
    outcome, handled := node.ServeChannels(log, batches);
    if outcome == Running && node.appliedIndex >= walEnd {
      ghost var more := Later(log, snap.index, walEnd as int, node.appliedIndex as int, node.sent);
      RestartReachesLogEnd(lib, cap, rs, evs, i, log, walEnd as int, more, load);
      var consumed := store.ReadCommits(node.sent, Some(snap), load, true);
    }
  }

  lemma SnapshotLoadable(lib: Lib, cap: nat, rs: seq<Replica>, evs: seq<Event>, i: nat)
    requires cap >= 1 && Run(lib, cap, rs, evs) && ReloadsSettled(lib, rs, evs)
    requires i < |rs| && NewestSettled(lib, rs, evs, i)
    ensures WellFormed(lib, cap, Restore(rs[i].snap, map[])) && PagesPlaced(lib, rs[i].store.disk)
  {
    RunKeeps(lib, cap, rs, evs, i);
  }

  /** Everything sent since a restart starts with the messages of the replay. */
  lemma Later(log: RaftLog, a: nat, b: nat, applied: nat, sent: seq<CommitMsg>) returns (more: seq<CommitMsg>)
    requires a <= b <= applied <= |log|
    requires sent == (if a < b then [] else [ReplayDone]) + Messages(log, a, applied, if a < b then b else 0)
    ensures sent == ReplayMessages(log, a, b) + more
  {
    if a < b {
      MessagesConcat(log, a, b, applied, b);
      more := Messages(log, b, applied, b);
    } else {
      more := Messages(log, a, applied, 0);
    }
  }

  // ----- the in-memory store -----

  lemma ReadFlatEntry(lib: Lib, s: Store, log: RaftLog, i: nat, lastIndex: nat,
                      msgs: seq<CommitMsg>, k: nat, load: nat -> Option<Store>, isInit: bool)
    requires i < |log|
    requires var e := EntryMessages(log, i, lastIndex);
      k + |e| <= |msgs| && forall j | 0 <= j < |e| :: msgs[k + j] == e[j]
    ensures var k' := k + |EntryMessages(log, i, lastIndex)|;
      var s' := ApplyEntry(lib, s, Entries(log)[i]);
      && (i + 1 != lastIndex ==>
            ReadFlat(lib, s, msgs, k, load, isInit) == ReadFlat(lib, s', msgs, k', load, isInit))
      && (i + 1 == lastIndex && isInit ==>
            ReadFlat(lib, s, msgs, k, load, isInit) == (s', k'))
      && (i + 1 == lastIndex && !isInit && load(k' - 1).Some? ==>
            ReadFlat(lib, s, msgs, k, load, isInit) == ReadFlat(lib, load(k' - 1).value, msgs, k', load, isInit))
  {
    var e := EntryMessages(log, i, lastIndex);
    if e != [] {
      assert msgs[k + 0] == e[0];
      if |e| == 2 {
        assert msgs[k + 1] == e[1];
      }
    }
  }

  lemma StateNext(lib: Lib, log: seq<Entry>, n: nat)
    requires n < |log|
    ensures StateAt(lib, log, n + 1) == ApplyEntry(lib, StateAt(lib, log, n), log[n])
  {
  }

  /** The in-memory store restarted from its snapshot at `a` takes exactly the
      entries up to `b` and stops on the one signal. */
  lemma {:induction false} FlatRestart(lib: Lib, log: RaftLog, a: nat, b: nat,
                                       msgs: seq<CommitMsg>, k: nat, load: nat -> Option<Store>)
    requires a < b <= |log| && CarriesAt(msgs, k, log, a, b, b)
    ensures ReadFlat(lib, StateAt(lib, Entries(log), a), msgs, k, load, true)
         == (StateAt(lib, Entries(log), b), k + |Messages(log, a, b, b)|)
    decreases b - a
  {
    hide ReadFlat, EntryMessages, CarriesAt, ApplyEntry, StateAt;
    StateNext(lib, Entries(log), a);
    CarriesRest(msgs, k, log, a, b, b);
    ReadFlatEntry(lib, StateAt(lib, Entries(log), a), log, a, b, msgs, k, load, true);
    if a + 1 < b {
      FlatRestart(lib, log, a + 1, b, msgs, k + |EntryMessages(log, a, b)|, load);
    }
  }

  /** Restarted on the same log, each from its own snapshot, the paged store and
      the in-memory store hold the same records. */
  lemma PagedRestartsLikeFlat(lib: Lib, cap: nat, rs: seq<Replica>, evs: seq<Event>, i: nat,
                              log: RaftLog, walEnd: nat, flatSnap: nat,
                              load: nat -> Option<Snapshot>, loadFlat: nat -> Option<Store>)
    requires cap >= 1 && Run(lib, cap, rs, evs) && ReloadsSettled(lib, rs, evs)
    requires i < |rs| && NewestSettled(lib, rs, evs, i) && rs[i].log == Entries(log) && rs[i].high <= walEnd <= |log|
    requires flatSnap <= walEnd
    ensures rs[i].snap.index <= walEnd
    ensures var msgs := ReplayMessages(log, rs[i].snap.index, walEnd);
      var flatMsgs := ReplayMessages(log, flatSnap, walEnd);
      View(lib, Read(lib, cap, Restore(rs[i].snap, rs[i].store.disk), msgs, 0, load, true).0)
        == ReadFlat(lib, StateAt(lib, Entries(log), flatSnap), flatMsgs, 0, loadFlat, true).0
  {
    RestartReachesLogEnd(lib, cap, rs, evs, i, log, walEnd, [], load);
    var msgs := ReplayMessages(log, rs[i].snap.index, walEnd);
    assert msgs + [] == msgs;
    if flatSnap < walEnd {
      FlatRestart(lib, log, flatSnap, walEnd, ReplayMessages(log, flatSnap, walEnd), 0, loadFlat);
    }
  }
}

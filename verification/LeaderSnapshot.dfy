/** A leader snapshot that arrives before replay ends. The initial commit loop
    ends on its nil without loading it; what is loaded later, if anything, is the
    newest snapshot at the time of the nil that ends replay. */
module LeaderSnapshot {
  import opened Records
  import opened FlatStore
  import opened Raft
  import opened Startup
  import Compaction

  /** Without the signal in it, a range is applied entry by entry. */
  lemma {:induction false} ReadFlatRange(lib: Lib, s: Store, log: RaftLog, a: nat, e: nat, lastIndex: nat,
                                         msgs: seq<CommitMsg>, k: nat, load: nat -> Option<Store>, isInit: bool)
    requires a <= e <= |log| && !(a < lastIndex <= e) && CarriesAt(msgs, k, log, a, e, lastIndex)
    ensures ReadFlat(lib, s, msgs, k, load, isInit)
         == ReadFlat(lib, Replay(lib, s, Entries(log), a, e), msgs, k + |Messages(log, a, e, lastIndex)|, load, isInit)
    decreases e - a
  {
    hide ReadFlat, EntryMessages, CarriesAt, ApplyOp;
    if a < e {
      CarriesRest(msgs, k, log, a, e, lastIndex);
      ReadFlatEntry(lib, s, log, a, lastIndex, msgs, k, load, isInit);
      ReadFlatRange(lib, ApplyEntry(lib, s, Entries(log)[a]), log, a + 1, e, lastIndex,
                    msgs, k + |EntryMessages(log, a, lastIndex)|, load, isInit);
    }
  }

  /** A leader snapshot arrives while replay has got to `d`: the initial loop
      ends on its nil and does not load it. */
  lemma InitialLoopEndsEarly(lib: Lib, log: RaftLog, k: nat, d: nat, b: nat, rest: seq<CommitMsg>, load: nat -> Option<Store>)
    requires k <= d <= |log| && d < b
    ensures var replayed := Messages(log, k, d, b);
      ReadFlat(lib, StateAt(lib, Entries(log), k), replayed + [ReplayDone] + rest, 0, load, true)
        == (StateAt(lib, Entries(log), d), |replayed| + 1)
  {
    var msgs := Messages(log, k, d, b) + [ReplayDone] + rest;
    ReadFlatRange(lib, StateAt(lib, Entries(log), k), log, k, d, b, msgs, 0, load, true);
    SnapshotPlusReplay(lib, Entries(log), k, d);
  }

  // ----- what the serving loop leaves -----

  /** The snapshot loaded when replay ends: the leader's at `a`, or one that the
      node took itself when the store had applied entries `a + 1` to `own`. */
  function LoadedLate(lib: Lib, log: seq<Entry>, d: nat, a: nat, own: Option<nat>): Store
    requires d <= a <= |log| && (own.Some? ==> a <= own.value <= |log|)
  {
    if own.Some? then Replay(lib, StateAt(lib, log, d), log, a, own.value) else StateAt(lib, log, a)
  }

  /** The store after such a start: replay got to `d`, the leader's snapshot is at
      `a`, the old log ends at `b`, and entries are applied up to `n`. Nothing is
      loaded until the signal for `b`, and never when `b` is not after `a`. */
  function AfterEarlyEnd(lib: Lib, log: seq<Entry>, d: nat, a: nat, own: Option<nat>, b: nat, n: nat): Store
    requires d <= a <= n <= |log| && (own.Some? ==> a <= own.value <= |log|)
  {
    if a < b <= n then Replay(lib, LoadedLate(lib, log, d, a, own), log, b, n)
    else Replay(lib, StateAt(lib, log, d), log, a, n)
  }

  lemma ReadFlatEnd(lib: Lib, s: Store, msgs: seq<CommitMsg>, load: nat -> Option<Store>)
    ensures ReadFlat(lib, s, msgs, |msgs|, load, false) == (s, |msgs|)
  {
  }

  lemma CarriesAll(log: RaftLog, a: nat, n: nat, lastIndex: nat)
    requires a <= n <= |log|
    ensures CarriesAt(Messages(log, a, n, lastIndex), 0, log, a, n, lastIndex)
  {
  }

  /** A range with the signal for `b` in it: what comes before entry `b`, that
      entry with the signal, and the rest. */
  lemma CarriesParts(log: RaftLog, a: nat, b: nat, n: nat)
    requires a < b <= n <= |log|
    ensures var msgs, k, e := Messages(log, a, n, b), |Messages(log, a, b - 1, b)|, EntryMessages(log, b - 1, b);
      && CarriesAt(msgs, 0, log, a, b - 1, b)
      && k + |e| == |Messages(log, a, b, b)| <= |msgs|
      && (forall j | 0 <= j < |e| :: msgs[k + j] == e[j])
      && CarriesAt(msgs, k + |e|, log, b, n, b)
      && k + |e| + |Messages(log, b, n, b)| == |msgs|
  {
    hide EntryMessages, Messages;
    MessagesConcat(log, a, b, n, b);
    LastMessages(log, a, b);
    Parts(Messages(log, a, b - 1, b), EntryMessages(log, b - 1, b), Messages(log, b, n, b));
  }

  lemma LastMessages(log: RaftLog, a: nat, b: nat)
    requires a < b <= |log|
    ensures Messages(log, a, b, b) == Messages(log, a, b - 1, b) + EntryMessages(log, b - 1, b)
  {
  }

  lemma Parts<T>(x: seq<T>, y: seq<T>, z: seq<T>)
    ensures var s := x + y + z;
      && |s| == |x| + |y| + |z|
      && (forall j | 0 <= j < |x| :: s[0 + j] == x[j])
      && (forall j | 0 <= j < |y| :: s[|x| + j] == y[j])
      && (forall j | 0 <= j < |z| :: s[|x| + |y| + j] == z[j])
  {
  }

  lemma SignalIsSent(log: RaftLog, a: nat, b: nat)
    requires a < b <= |log|
    ensures |Messages(log, a, b, b)| > 0
  {
  }

  /** The serving loop, on the messages of any further range. */
  lemma ServingLoopAfterEarlyEnd(lib: Lib, log: RaftLog, d: nat, a: nat, own: Option<nat>, b: nat, r: nat, n: nat,
                                 load: nat -> Option<Store>)
    requires d <= a <= r <= n <= |log| && (own.Some? ==> a <= own.value <= |log|)
    requires r < b <= n ==> forall i :: load(i) == Some(LoadedLate(lib, Entries(log), d, a, own))
    ensures ReadFlat(lib, AfterEarlyEnd(lib, Entries(log), d, a, own, b, r), Messages(log, r, n, b), 0, load, false)
         == (AfterEarlyEnd(lib, Entries(log), d, a, own, b, n), |Messages(log, r, n, b)|)
  {
    hide EntryMessages, Messages, CarriesAt, ApplyOp, StateAt, ReadFlat, Replay, LoadedLate;
    var msgs, s := Messages(log, r, n, b), AfterEarlyEnd(lib, Entries(log), d, a, own, b, r);
    var late := LoadedLate(lib, Entries(log), d, a, own);
    ReadFlatEnd(lib, AfterEarlyEnd(lib, Entries(log), d, a, own, b, n), msgs, load);
    if r < b <= n {
      CarriesParts(log, r, b, n);
      SignalIsSent(log, r, b);
      var k := |Messages(log, r, b - 1, b)|;
      ReadFlatRange(lib, s, log, r, b - 1, b, msgs, 0, load, false);
      ReadFlatEntry(lib, Replay(lib, s, Entries(log), r, b - 1), log, b - 1, b, msgs, k, load, false);
      ReadFlatRange(lib, late, log, b, n, b, msgs, |Messages(log, r, b, b)|, load, false);
    } else {
      CarriesAll(log, r, n, b);
      ReadFlatRange(lib, s, log, r, n, b, msgs, 0, load, false);
      if a < b <= r {
        ReplayConcat(lib, late, Entries(log), b, r, n);
      } else {
        ReplayConcat(lib, StateAt(lib, Entries(log), d), Entries(log), a, r, n);
      }
    }
  }

  // ----- when this does no harm -----

  ghost predicate ServedRight(lib: Lib, log: seq<Entry>, d: nat, a: nat, own: Option<nat>, b: nat, n: nat)
    requires d <= a <= n <= |log| && (own.Some? ==> a <= own.value <= |log|)
  {
    AfterEarlyEnd(lib, log, d, a, own, b, n) == StateAt(lib, log, n)
  }

  /** Until the signal, and for ever when the snapshot reaches the end of the old
      log: exactly when the entries that the snapshot skipped leave no trace. */
  lemma RightBeforeSignalIff(lib: Lib, log: seq<Entry>, d: nat, a: nat, own: Option<nat>, b: nat)
    requires d <= a <= |log| && (own.Some? ==> a <= own.value <= |log|)
    ensures (forall n | a <= n <= |log| && !(a < b <= n) :: ServedRight(lib, log, d, a, own, b, n))
      <==> LeavesNoTrace(lib, log, d, a)
  {
    hide LeavesNoTrace, StateAt;
    UnchangedIff(lib, log, d, a);
    assert ServedRight(lib, log, d, a, own, b, a) <==> StateAt(lib, log, d) == StateAt(lib, log, a);
    forall n | a <= n <= |log| { SnapshotPlusReplay(lib, log, a, n); }
  }

  /** The condition for what is loaded on the signal to be what the log leaves. */
  ghost predicate LateLoadUnseen(lib: Lib, log: seq<Entry>, d: nat, a: nat, own: Option<nat>, b: nat)
    requires d <= a <= b <= |log| && (own.Some? ==> a <= own.value <= b)
  {
    if own.Some? then OmissionUnseen(lib, log, d, a, own.value, b) else LeavesNoTrace(lib, log, a, b)
  }

  /** After the signal: exactly when the entries left out of the snapshot that is
      then loaded cannot be seen. For the leader's these are the entries between
      it and the signal; for one of the node's own, those that the leader's
      skipped and those since it was taken. */
  lemma RightAfterSignalIff(lib: Lib, log: seq<Entry>, d: nat, a: nat, own: Option<nat>, b: nat)
    requires d <= a < b <= |log| && (own.Some? ==> a <= own.value <= b)
    ensures (forall n | b <= n <= |log| :: ServedRight(lib, log, d, a, own, b, n))
      <==> LateLoadUnseen(lib, log, d, a, own, b)
  {
    hide LeavesNoTrace, OmissionUnseen, StateAt;
    if own.Some? {
      OmissionUnseenIff(lib, log, d, a, own.value, b);
    } else {
      UnchangedIff(lib, log, a, b);
    }
    assert ServedRight(lib, log, d, a, own, b, b) <==> LoadedLate(lib, log, d, a, own) == StateAt(lib, log, b);
    forall n | b <= n <= |log| { SnapshotPlusReplay(lib, log, b, n); }
  }

  /** All the time: exactly when neither the entries that the leader's snapshot
      skipped nor those after the loaded one leave a trace. */
  lemma EarlyEndRightIff(lib: Lib, log: seq<Entry>, d: nat, a: nat, own: Option<nat>, b: nat)
    requires d <= a < b <= |log| && (own.Some? ==> a <= own.value < b)
    ensures (forall n | a <= n <= |log| :: ServedRight(lib, log, d, a, own, b, n))
      <==> LeavesNoTrace(lib, log, d, a) && LeavesNoTrace(lib, log, if own.Some? then own.value else a, b)
  {
    hide LeavesNoTrace, OmissionUnseen, StateAt;
    RightBeforeSignalIff(lib, log, d, a, own, b);
    RightAfterSignalIff(lib, log, d, a, own, b);
    UnchangedIff(lib, log, d, a);
    if own.Some? {
      OmissionUnseenIff(lib, log, d, a, own.value, b);
      UnchangedIff(lib, log, own.value, b);
      SnapshotPlusReplay(lib, log, a, own.value);
    }
  }

  // ----- which snapshot is the newest -----

  /** Index of the newest snapshot when the signal for `b` is sent, if the node
      starts from the leader's at `a` and handles these batches. */
  function NewestUntil(a: nat, b: nat, batches: seq<ReadyBatch>): nat {
    if batches == [] then a
    else
      var newest, r := NewestUntil(a, b, batches[..|batches| - 1]), Reached(a, batches);
      if r < b && r - newest > SNAP_COUNT as int then r else newest
  }

  function OwnSnapshot(a: nat, b: nat, batches: seq<ReadyBatch>): Option<nat> {
    var newest := NewestUntil(a, b, batches);
    if newest == a then None else Some(newest)
  }

  /** It can only be one of the node's own when the old log goes on for more than
      10001 entries after the leader's. */
  lemma {:induction false} OwnSnapshotLate(a: nat, b: nat, batches: seq<ReadyBatch>)
    ensures var m := NewestUntil(a, b, batches);
      && (m == a || a + SNAP_COUNT as nat < m < b)
      && m <= Reached(a, batches)
    ensures b <= a + SNAP_COUNT as nat + 1 ==> OwnSnapshot(a, b, batches) == None
  {
    if batches != [] {
      OwnSnapshotLate(a, b, batches[..|batches| - 1]);
    }
  }

  lemma OneMoreBatch(a: nat, b: nat, batches: seq<ReadyBatch>, i: nat)
    requires i < |batches|
    ensures var newest, r := NewestUntil(a, b, batches[..i]), Reached(a, batches[..i + 1]);
      NewestUntil(a, b, batches[..i + 1]) == if r < b && r - newest > SNAP_COUNT as int then r else newest
  {
    assert batches[..i + 1][..i] == batches[..i];
  }

  lemma NoBatchYet(a: nat, b: nat, batches: seq<ReadyBatch>)
    ensures OwnSnapshot(a, b, batches[..0]) == None && NewestUntil(a, b, batches[..0]) == a
  {
  }

  /** The snapshot check of one turn. */
  lemma NewestAfter(s: Compaction.Indices)
    requires Checked(s).Some? && s.snapshot <= s.applied
    ensures Checked(s).value.snapshot == if s.applied - s.snapshot > SNAP_COUNT as int then s.applied else s.snapshot
    ensures Checked(s).value.applied == s.applied
  {
  }

  // ----- raft node and store together -----

  lemma OwnIrrelevant(lib: Lib, log: seq<Entry>, d: nat, a: nat, own: Option<nat>, own': Option<nat>, b: nat, n: nat)
    requires d <= a <= n <= |log| && !(a < b <= n)
    requires (own.Some? ==> a <= own.value <= |log|) && (own'.Some? ==> a <= own'.value <= |log|)
    ensures AfterEarlyEnd(lib, log, d, a, own, b, n) == AfterEarlyEnd(lib, log, d, a, own', b, n)
    ensures n == a ==> AfterEarlyEnd(lib, log, d, a, own, b, n) == StateAt(lib, log, d)
    ensures own == Some(n) ==> AfterEarlyEnd(lib, log, d, a, own, b, n) == LoadedLate(lib, log, d, a, own)
  {
  }

  /** Node, store and newest snapshot after `i` batches. */
  ghost predicate InStep(lib: Lib, log: RaftLog, d: nat, a: nat, b: nat, batches: seq<ReadyBatch>, i: nat,
                         node: RaftNode, store: DnsStore, newest: Store)
    requires d <= a <= |log| && i <= |batches|
    reads node, store
  {
    var n, own := node.appliedIndex as nat, OwnSnapshot(a, b, batches[..i]);
    && node.Ordered() && node.lastIndex as nat == b && store.lib == lib
    && n == Reached(a, batches[..i]) <= |log|
    && (own.Some? ==> a <= own.value <= |log|)
    && store.store == AfterEarlyEnd(lib, Entries(log), d, a, own, b, n)
    && (n < b ==>
          && node.snapshotIndex as nat == NewestUntil(a, b, batches[..i])
          && newest == LoadedLate(lib, Entries(log), d, a, own))
  }

  /** Restart at `k`, replay up to `d`, leader snapshot at `a`: the initial loop
      ends with the state at `d`. */
  method StartWithLeaderSnapshot(lib: Lib, id: uint64, log: RaftLog, k: uint64, d: nat, a: uint64, b: uint64, budget: nat,
                                 atK: Store)
    returns (node: RaftNode, store: DnsStore)
    requires k as int <= d < a as int <= |log| && d < b as int && a as int < MAX64 && b as int < MAX64
    requires Keeps(log, id, k as int, d) && |Messages(log, k as int, d, b as int)| <= budget
    requires atK == StateAt(lib, Entries(log), k as int)
    ensures fresh(node) && fresh(store) && node.id == id
    ensures node.sent == Messages(log, k as int, d, b as int) + [ReplayDone]
    ensures node.Ordered() && node.appliedIndex == node.snapshotIndex == a && node.lastIndex == b
    ensures store.lib == lib && store.store == StateAt(lib, Entries(log), d)
  {
    hide Messages, StateAt, ReadFlat, Keeps;
    NothingSent(log, id, a as int, b as int, []);
    node := new RaftNode(id, k, b);
    var replayed := node.HandleReady(log, 0, ReadyBatch(b, k as int, d, budget));
    var stored := if a < b then b else a;
    var installed := node.HandleReady(log, a, ReadyBatch(stored, a as int, a as int, 0));
    store := new DnsStore(lib);
    InitialLoopEndsEarly(lib, log, k as int, d, b as int, [], _ => None);
    assert node.sent + [] == node.sent;
    var taken := store.ReadCommits(node.sent, Some(atK), _ => None, true);
  }

  /** One more batch: the store reads what the node sends for it, and a snapshot
      that the node then takes becomes the newest one. */
  method ServeBatch(lib: Lib, log: RaftLog, ghost d: nat, ghost a: nat, ghost b: nat, batches: seq<ReadyBatch>, i: nat,
                    node: RaftNode, store: DnsStore, newest: Store)
    returns (newest': Store)
    requires d <= a <= |log| && i < |batches| && InStep(lib, log, d, a, b, batches, i, node, store, newest)
    requires InLog(log, a, batches) && BatchPasses(log, node.id, b, a, batches, i)
    requires node.appliedIndex <= batches[i].stored && batches[i].stored as int < MAX64
    requires batches[i].hi <= batches[i].stored as int
    modifies node, store
    ensures InStep(lib, log, d, a, b, batches, i + 1, node, store, newest')
    ensures old(node.appliedIndex) <= node.appliedIndex
    ensures node.sent == old(node.sent) + Messages(log, old(node.appliedIndex) as int, node.appliedIndex as int, b)
  {
    hide Messages, StateAt, ReadFlat, Passes, Reached, BatchPasses, InLog, AfterEarlyEnd, LoadedLate, NewestUntil, SentUpTo, Checked;
    ghost var r, own := node.appliedIndex as nat, OwnSnapshot(a, b, batches[..i]);
    BatchStep(log, node.id, b, a, batches, i);
    OneMoreBatch(a, b, batches, i);
    OwnSnapshotLate(a, b, batches[..i]);
    OwnSnapshotLate(a, b, batches[..i + 1]);
    var mark, snapshotIndex := |node.sent|, node.snapshotIndex;
    ghost var turned := node.Indices().(applied := Reached(a, batches[..i + 1]), stored := batches[i].stored as nat);
    var outcome := node.HandleReady(log, 0, batches[i]);
    NewestAfter(turned);
    ghost var n, own' := node.appliedIndex as nat, OwnSnapshot(a, b, batches[..i + 1]);
    ServingLoopAfterEarlyEnd(lib, log, d, a, own, b, r, n, _ => Some(newest));
    assert node.sent[mark..] == Messages(log, r, n, b);
    var taken := store.ReadCommits(node.sent[mark..], None, _ => Some(newest), false);
    if !(a < b <= n) {
      OwnIrrelevant(lib, Entries(log), d, a, own', own, b, n);
    }
    newest' := newest;
    if node.snapshotIndex != snapshotIndex {
      newest' := store.GetSnapshot();
    }
  }

  /** The raft node and the in-memory store do this. Restarted at `k` with an old
      log up to `b`, the node replays up to `d`, gets the leader's snapshot at `a`
      and then any batches that do not stop it. The store reads what is sent, and
      whenever the node takes a snapshot, that becomes the newest one. */
  method RestartWithLeaderSnapshot(lib: Lib, id: uint64, log: RaftLog, k: uint64, d: nat, a: uint64, b: uint64, budget: nat,
                                   atK: Store, atA: Store, batches: seq<ReadyBatch>)
    returns (node: RaftNode, store: DnsStore)
    requires k as int <= d < a as int <= |log| && d < b as int && a as int < MAX64 && b as int < MAX64
    requires Keeps(log, id, k as int, d) && |Messages(log, k as int, d, b as int)| <= budget
    requires atK == StateAt(lib, Entries(log), k as int) && atA == StateAt(lib, Entries(log), a as int)
    requires InLog(log, a as int, batches) && AllPass(log, id, b as int, a as int, batches, |batches|)
    requires forall i | 0 <= i < |batches| :: a <= batches[i].stored && batches[i].stored as int < MAX64
    requires forall i, j | 0 <= i <= j < |batches| :: batches[i].hi <= batches[j].stored as int
    ensures var n := Reached(a as int, batches);
      && node.appliedIndex as int == n <= |log|
      && node.sent == Messages(log, k as int, d, b as int) + [ReplayDone] + Messages(log, a as int, n, b as int)
      && var own := OwnSnapshot(a as int, b as int, batches);
      && (own.Some? ==> a as int <= own.value <= |log|)
      && store.store == AfterEarlyEnd(lib, Entries(log), d, a as int, own, b as int, n)
  {
    hide Messages, StateAt, ReadFlat, Keeps, Passes, Reached, BatchPasses, InLog, AfterEarlyEnd, NewestUntil, SentUpTo;
    node, store := StartWithLeaderSnapshot(lib, id, log, k, d, a, b, budget, atK);
    var newest := atA;
    ghost var first := node.sent;
    NothingServed(log, id, b as int, a as int, batches, first);
    NoBatchYet(a as int, b as int, batches);
    assert InStep(lib, log, d, a as int, b as int, batches, 0, node, store, newest) by {
      OwnIrrelevant(lib, Entries(log), d, a as int, None, None, b as int, a as int);
    }
    for i := 0 to |batches|
      invariant InStep(lib, log, d, a as int, b as int, batches, i, node, store, newest)
      invariant node.id == id && fresh(node) && fresh(store)
      invariant a <= node.appliedIndex && node.sent == first + Messages(log, a as int, node.appliedIndex as int, b as int)
      invariant forall j | i <= j < |batches| :: node.appliedIndex <= batches[j].stored
    {
      BatchStep(log, id, b as int, a as int, batches, i);
      ghost var r := node.appliedIndex as int;
      newest := ServeBatch(lib, log, d, a as int, b as int, batches, i, node, store, newest);
      MessagesConcat(log, a as int, r, node.appliedIndex as int, b as int);
    }
    assert batches[..|batches|] == batches;
  }

  // ----- what is lost -----

  /** Each harm happens. One record before the leader's snapshot, and that is
      never loaded; or one after it, and it is loaded over it. */
  lemma EarlyEndLosesRecord(lib: Lib, str: string)
    requires lib.parse(str).Good?
    ensures var log := [Data(AddRR(str))];
      AfterEarlyEnd(lib, log, 0, 1, None, 1, 1) == map[] != StateAt(lib, log, 1)
    ensures var log := [NoData, Data(AddRR(str))];
      AfterEarlyEnd(lib, log, 0, 1, None, 2, 2) == map[] != StateAt(lib, log, 2)
  {
    NoOpIffUnchanged(lib, map[], AddRR(str));
    assert StateAt(lib, [NoData, Data(AddRR(str))], 1) == map[];
  }

  lemma {:induction false} NothingApplied(lib: Lib, s: Store, log: seq<Entry>, i: nat, j: nat)
    requires i <= j <= |log| && forall k | i <= k < j :: log[k].NoData?
    ensures Replay(lib, s, log, i, j) == s
    decreases j - i
  {
    if i < j {
      NothingApplied(lib, s, log, i + 1, j);
    }
  }

  lemma TwoBatches(a: nat, b: nat, first: ReadyBatch, second: ReadyBatch)
    requires a < first.hi < b <= second.hi && first.lo < first.hi && second.lo < second.hi && first.hi - a > SNAP_COUNT as nat
    ensures OwnSnapshot(a, b, [first, second]) == Some(first.hi)
  {
    assert [first, second][..1] == [first] && [first][..0] == [];
    assert Reached(a, []) == a && NewestUntil(a, b, []) == a;
    assert Reached(a, [first]) == first.hi && NewestUntil(a, b, [first]) == first.hi;
    assert Reached(a, [first, second]) == second.hi;
  }

  /** One record before the leader's snapshot and 20001 entries without proposals
      after it: the leader's snapshot would put everything right on the signal,
      but by then the node has taken one of its own, without the record. */
  lemma OwnSnapshotLosesRecord(lib: Lib, str: string)
    requires lib.parse(str).Good?
    ensures var log := [Data(AddRR(str))] + seq(20001, _ => NoData);
      && OwnSnapshot(1, 20002, [ReadyBatch(20002, 1, 10002, 0), ReadyBatch(20002, 10002, 20002, 1)]) == Some(10002)
      && AfterEarlyEnd(lib, log, 0, 1, None, 20002, 20002) == StateAt(lib, log, 20002) != map[]
      && AfterEarlyEnd(lib, log, 0, 1, Some(10002), 20002, 20002) == map[]
  {
    hide Replay;
    var log: seq<Entry> := [Data(AddRR(str))] + seq(20001, _ => NoData);
    var first, second := ReadyBatch(20002, 1, 10002, 0), ReadyBatch(20002, 10002, 20002, 1);
    TwoBatches(1, 20002, first, second);
    NoOpIffUnchanged(lib, map[], AddRR(str));
    SnapshotPlusReplay(lib, log, 1, 20002);
    NothingApplied(lib, StateAt(lib, log, 1), log, 1, 20002);
    NothingApplied(lib, map[], log, 1, 10002);
    NothingApplied(lib, StateAt(lib, log, 1), log, 20002, 20002);
    NothingApplied(lib, map[], log, 20002, 20002);
    assert StateAt(lib, log, 0) == map[];
  }
}

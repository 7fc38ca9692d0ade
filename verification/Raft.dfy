/** The apply loop of the raft node: which committed entries go to the store, in
    which order, and when the log is snapshotted and compacted. Indices are
    64-bit and subtraction wraps, as in the program. */
module Raft {
  import opened Records
  import opened FlatStore
  import Compaction

  const MAX64: int := 0xFFFF_FFFF_FFFF_FFFF

  function Sub64(a: uint64, b: uint64): uint64 {
    ((a as int - b as int) % (MAX64 + 1)) as uint64
  }

  function Add64(a: uint64, b: uint64): uint64 {
    ((a as int + b as int) % (MAX64 + 1)) as uint64
  }

  datatype ConfChange = AddNode(id: uint64) | RemoveNode(id: uint64) | OtherChange

  /** The wrap-around of `a - f + 1` is the right count also for `f == a + 1`. */
  lemma WrappedCount(a: uint64, f: uint64)
    requires a as int < MAX64 && f as int <= a as int + 1
    ensures Add64(Sub64(a, f), 1) as int == a as int - f as int + 1
  {
    if f as int == a as int + 1 {
      assert (a as int - f as int) % (MAX64 + 1) == MAX64;
    }
  }

  lemma WrappedNext(a: uint64)
    requires a as int < MAX64
    ensures Add64(a, 1) as int == a as int + 1
  {
  }

  /** What a committed entry carries. An empty normal entry is ignored. */
  datatype Payload = Normal(op: Op) | Empty | Conf(change: ConfChange)

  datatype RaftEntry = RaftEntry(index: uint64, payload: Payload)

  /** The committed log; position `i` holds the entry with index `i + 1`. */
  type RaftLog = log: seq<Payload> | |log| <= MAX64

  /** The entries a batch of committed entries holds: positions `a` to `b - 1`. */
  function Batch(log: RaftLog, a: nat, b: nat): seq<RaftEntry>
    requires a <= b <= |log|
  {
    seq(b - a, i requires 0 <= i < b - a => RaftEntry((a + i + 1) as uint64, log[a + i]))
  }

  /** What belongs on the channel for one entry: its proposal, then the signal
      that replay is done when it is the last one of the old log. */
  function EntryMessages(log: RaftLog, i: nat, lastIndex: nat): seq<CommitMsg>
    requires i < |log|
  {
    if !log[i].Normal? then (if i + 1 == lastIndex then [ReplayDone] else [])
    else if i + 1 == lastIndex then [Proposal(i + 1, log[i].op), ReplayDone]
    else [Proposal(i + 1, log[i].op)]
  }

  /** The proposal of an entry without the signal. */
  function EntryProposal(log: RaftLog, i: nat): seq<CommitMsg>
    requires i < |log|
  {
    if log[i].Normal? then [Proposal(i + 1, log[i].op)] else []
  }

  function Messages(log: RaftLog, a: nat, b: nat, lastIndex: nat): seq<CommitMsg>
    requires a <= b <= |log|
  {
    if a == b then [] else Messages(log, a, b - 1, lastIndex) + EntryMessages(log, b - 1, lastIndex)
  }

  lemma {:induction false} MessagesConcat(log: RaftLog, a: nat, b: nat, c: nat, lastIndex: nat)
    requires a <= b <= c <= |log|
    ensures Messages(log, a, c, lastIndex) == Messages(log, a, b, lastIndex) + Messages(log, b, c, lastIndex)
  {
    if b < c {
      MessagesConcat(log, a, b, c - 1, lastIndex);
    }
  }

  function ProposalsOf(msgs: seq<CommitMsg>): seq<CommitMsg> {
    if msgs == [] then []
    else
      var n := |msgs| - 1;
      ProposalsOf(msgs[..n]) + if msgs[n].Proposal? then [msgs[n]] else []
  }

  /** Each proposal in `m` comes from positions `a` to `b - 1` of the log and
      carries its own index, and indices strictly increase. */
  ghost predicate InLogOrder(log: RaftLog, m: seq<CommitMsg>, a: nat, b: nat)
    requires a <= b <= |log|
  {
    && (forall k | 0 <= k < |m| && m[k].Proposal? ::
          a < m[k].index <= b && log[m[k].index - 1] == Normal(m[k].op))
    && (forall k, l | 0 <= k < l < |m| && m[k].Proposal? && m[l].Proposal? :: m[k].index < m[l].index)
  }

  lemma {:induction false} MessagesInOrder(log: RaftLog, a: nat, b: nat, lastIndex: nat)
    requires a <= b <= |log|
    ensures InLogOrder(log, Messages(log, a, b, lastIndex), a, b)
  {
    if a < b {
      MessagesInOrder(log, a, b - 1, lastIndex);
      OrderSnoc(log, Messages(log, a, b - 1, lastIndex), a, b - 1, lastIndex);
    }
  }

  lemma OrderSnoc(log: RaftLog, m: seq<CommitMsg>, a: nat, b: nat, lastIndex: nat)
    requires a <= b < |log| && InLogOrder(log, m, a, b)
    ensures InLogOrder(log, m + EntryMessages(log, b, lastIndex), a, b + 1)
  {
    var e := EntryMessages(log, b, lastIndex);
    assert forall k | 0 <= k < |e| && e[k].Proposal? :: k == 0 && e[k] == Proposal(b + 1, log[b].op);
  }

  /** Every proposal of a range is among its messages. */
  lemma {:induction false} MessagesComplete(log: RaftLog, a: nat, b: nat, lastIndex: nat, i: nat)
    requires a <= i < b <= |log| && log[i].Normal?
    ensures Proposal(i + 1, log[i].op) in Messages(log, a, b, lastIndex)
  {
    if i < b - 1 {
      MessagesComplete(log, a, b - 1, lastIndex, i);
    } else {
      assert Proposal(i + 1, log[i].op) in EntryMessages(log, i, lastIndex);
    }
  }

  function Signals(msgs: seq<CommitMsg>): nat {
    if msgs == [] then 0
    else Signals(msgs[..|msgs| - 1]) + if msgs[|msgs| - 1] == ReplayDone then 1 else 0
  }

  lemma {:induction false} SignalsConcat(a: seq<CommitMsg>, b: seq<CommitMsg>)
    ensures Signals(a + b) == Signals(a) + Signals(b)
  {
    if b == [] {
      assert a + b == a;
    } else {
      var n := |b| - 1;
      assert (a + b)[..|a| + n] == a + b[..n];
      SignalsConcat(a, b[..n]);
    }
  }

  lemma EntrySignals(log: RaftLog, i: nat, lastIndex: nat)
    requires i < |log|
    ensures Signals(EntryMessages(log, i, lastIndex)) == if i + 1 == lastIndex then 1 else 0
    ensures ProposalsOf(EntryMessages(log, i, lastIndex)) == EntryProposal(log, i)
    ensures ProposalsOf(EntryProposal(log, i)) == EntryProposal(log, i)
  {
    var e := EntryMessages(log, i, lastIndex);
    if |e| == 2 {
      assert e == [e[0]] + [e[1]];
      SignalsConcat([e[0]], [e[1]]);
      ProposalsConcat([e[0]], [e[1]]);
    }
  }

  /** The signal is sent once if the range holds `lastIndex`, else not at all. */
  lemma {:induction false} SignalOnce(log: RaftLog, a: nat, b: nat, lastIndex: nat)
    requires a <= b <= |log|
    ensures Signals(Messages(log, a, b, lastIndex)) == if a < lastIndex <= b then 1 else 0
  {
    if a < b {
      hide EntryMessages, Signals;
      SignalOnce(log, a, b - 1, lastIndex);
      SignalsConcat(Messages(log, a, b - 1, lastIndex), EntryMessages(log, b - 1, lastIndex));
      EntrySignals(log, b - 1, lastIndex);
    }
  }

  /** How handling a batch ends: normally, by a stop of the node, by a fatal
      check of its own, or by an error from the storage it passes on as a panic. */
  datatype Outcome = Running | Stopped | Fatal | Panic

  /** A batch of committed entries `lo + 1` to `hi`, with the log stored up to
      `stored`, and how many sends go through before a stop. */
  datatype ReadyBatch = ReadyBatch(stored: uint64, lo: nat, hi: nat, budget: nat)

  /** None of positions `a` to `b - 1` removes the node. */
  predicate Keeps(log: RaftLog, id: uint64, a: nat, b: nat)
    requires b <= |log|
  {
    forall i | a <= i < b :: log[i] != Conf(RemoveNode(id))
  }

  /** The batch starts too far ahead of the applied index `from`. */
  predicate Gap(from: nat, b: ReadyBatch) {
    b.lo < b.hi && b.lo > from
  }

  /** The applied index after the whole batch. */
  function Next(from: nat, b: ReadyBatch): nat {
    if b.lo < b.hi && from < b.hi then b.hi else from
  }

  /** Nothing stops a node at applied index `from` while it publishes the batch:
      there is no gap, the sends all go through, and it is not removed. */
  predicate Passes(log: RaftLog, id: uint64, lastIndex: nat, from: nat, b: ReadyBatch)
    requires from <= |log| && b.hi <= |log|
  {
    && !Gap(from, b)
    && |Messages(log, from, Next(from, b), lastIndex)| <= b.budget
    && Keeps(log, id, from, Next(from, b))
  }

  /** The applied index after all of the batches. */
  function Reached(from: nat, batches: seq<ReadyBatch>): (r: nat)
    ensures from <= r
  {
    if batches == [] then from
    else Next(Reached(from, batches[..|batches| - 1]), batches[|batches| - 1])
  }

  /** The batches as turns of the compaction model. */
  function TurnsOf(from: nat, batches: seq<ReadyBatch>): seq<Compaction.Turn> {
    if batches == [] then []
    else
      var n := |batches| - 1;
      TurnsOf(from, batches[..n]) + [Compaction.Advance(Reached(from, batches), batches[n].stored as nat)]
  }

  ghost predicate InLog(log: RaftLog, from: nat, batches: seq<ReadyBatch>) {
    from <= |log| && forall b | b in batches :: b.lo <= b.hi <= |log|
  }

  lemma {:induction false} ReachedInLog(log: RaftLog, from: nat, batches: seq<ReadyBatch>)
    requires InLog(log, from, batches)
    ensures Reached(from, batches) <= |log|
  {
    if batches != [] {
      var n := |batches| - 1;
      assert batches == batches[..n] + [batches[n]];
      ReachedInLog(log, from, batches[..n]);
    }
  }

  /** It is the largest index of a batch that is not empty, or the start. */
  lemma {:induction false} ReachedIsLargest(from: nat, batches: seq<ReadyBatch>)
    ensures forall b | b in batches && b.lo < b.hi :: b.hi <= Reached(from, batches)
    ensures Reached(from, batches) == from || exists b :: b in batches && b.lo < b.hi == Reached(from, batches)
  {
    if batches != [] {
      var n := |batches| - 1;
      assert batches == batches[..n] + [batches[n]];
      ReachedIsLargest(from, batches[..n]);
    }
  }

  /** Nothing stops the node during the first `n` batches. */
  ghost predicate AllPass(log: RaftLog, id: uint64, lastIndex: nat, from: nat, batches: seq<ReadyBatch>, n: nat)
    requires InLog(log, from, batches) && n <= |batches|
  {
    forall k | 0 <= k < n :: BatchPasses(log, id, lastIndex, from, batches, k)
  }

  ghost predicate BatchPasses(log: RaftLog, id: uint64, lastIndex: nat, from: nat, batches: seq<ReadyBatch>, k: nat)
    requires InLog(log, from, batches) && k < |batches|
  {
    ReachedInLog(log, from, batches[..k]);
    Passes(log, id, lastIndex, Reached(from, batches[..k]), batches[k])
  }

  lemma BatchStep(log: RaftLog, id: uint64, lastIndex: nat, from: nat, batches: seq<ReadyBatch>, k: nat)
    requires InLog(log, from, batches) && k < |batches|
    ensures var a, b := Reached(from, batches[..k]), batches[k];
      && from <= a <= |log| && b.lo <= b.hi <= |log|
      && Reached(from, batches[..k + 1]) == Next(a, b)
      && (Next(a, b) == a || Next(a, b) == b.hi) && a <= Next(a, b) <= |log|
      && (BatchPasses(log, id, lastIndex, from, batches, k) <==> Passes(log, id, lastIndex, a, b))
      && AllPass(log, id, lastIndex, from, batches, k + 1)
           == (AllPass(log, id, lastIndex, from, batches, k) && Passes(log, id, lastIndex, a, b))
  {
    hide Passes;
    assert batches[k] in batches && batches[..k + 1][..k] == batches[..k];
    ReachedInLog(log, from, batches[..k]);
  }

  /** Batches without a gap, with room for all sends, and without an entry that
      removes the node: nothing stops it. */
  lemma GaplessPass(log: RaftLog, id: uint64, lastIndex: nat, from: nat, batches: seq<ReadyBatch>)
    requires InLog(log, from, batches) && Keeps(log, id, from, |log|)
    requires forall k | 0 <= k < |batches| ::
      !Gap(Reached(from, batches[..k]), batches[k]) && |Messages(log, from, |log|, lastIndex)| <= batches[k].budget
    ensures AllPass(log, id, lastIndex, from, batches, |batches|)
  {
    forall k | 0 <= k < |batches|
      ensures BatchPasses(log, id, lastIndex, from, batches, k)
    {
      ReachedInLog(log, from, batches[..k]);
      var a := Reached(from, batches[..k]);
      var b := Next(a, batches[k]);
      assert batches[k] in batches;
      MessagesConcat(log, from, a, |log|, lastIndex);
      MessagesConcat(log, a, b, |log|, lastIndex);
    }
  }

  const SNAP_COUNT: uint64 := 10000
  const CATCH_UP_ENTRIES: uint64 := 10000

  function Checked(s: Compaction.Indices): Option<Compaction.Indices> {
    Compaction.Trigger(SNAP_COUNT as nat, CATCH_UP_ENTRIES as nat, s)
  }

  function CheckedTurns(s: Compaction.Indices, turns: seq<Compaction.Turn>): Option<Compaction.Indices> {
    Compaction.Turns(SNAP_COUNT as nat, CATCH_UP_ENTRIES as nat, s, turns)
  }

  class RaftNode {
    const id: uint64
    var appliedIndex: uint64
    var snapshotIndex: uint64
    var lastIndex: uint64
    var confChanges: seq<ConfChange>
    /** Everything handed over on the commit channel. */
    var sent: seq<CommitMsg>
    /** The in-memory log storage: index below which it is compacted, last index
        it holds, and index of its snapshot. */
    var offset: uint64
    var lastStored: uint64
    var storedSnapshot: uint64

    /** The order the indices keep between two batches. */
    predicate Ordered()
      reads this
    {
      offset <= snapshotIndex == storedSnapshot <= appliedIndex <= lastStored
    }

    /** The indices as `Compaction` sees them. */
    function Indices(): Compaction.Indices
      reads this
    {
      Compaction.Indices(offset as nat, snapshotIndex as nat, appliedIndex as nat, lastStored as nat)
    }

    /** Restart from a snapshot at `snapIndex` (0: none) with `logEnd` the last
        index in the write-ahead log. Without entries the signal that replay is
        done goes out at once. */
    constructor (id: uint64, snapIndex: uint64, logEnd: uint64)
      requires snapIndex <= logEnd
      ensures Ordered() && appliedIndex == snapIndex && this.id == id
      ensures logEnd == snapIndex ==> sent == [ReplayDone] && lastIndex == 0
      ensures logEnd > snapIndex ==> sent == [] && lastIndex == logEnd
    {
      this.id := id;
      appliedIndex, snapshotIndex, offset, storedSnapshot := snapIndex, snapIndex, snapIndex, snapIndex;
      lastStored := logEnd;
      lastIndex := if logEnd > snapIndex then logEnd else 0;
      confChanges := [];
      sent := if logEnd > snapIndex then [] else [ReplayDone];
    }

    /** The entries of a batch that were not applied before. The batch starts
        right after `appliedIndex` or overlaps it; a gap is fatal. */
    method EntriesToApply(ents: seq<RaftEntry>) returns (outcome: Outcome, nents: seq<RaftEntry>, ghost k: nat)
      requires appliedIndex as int < MAX64
      requires |ents| <= MAX64
      requires forall i | 0 <= i < |ents| :: ents[i].index as int == ents[0].index as int + i
      ensures outcome == (if ents != [] && ents[0].index as int > appliedIndex as int + 1 then Fatal else Running)
      ensures outcome == Running ==>
        && k <= |ents| && nents == ents[k..]
        && (forall i | 0 <= i < k :: ents[i].index <= appliedIndex)
        && (forall i | k <= i < |ents| :: ents[i].index > appliedIndex)
      ensures outcome == Running && ents != [] ==>
        k as int == if appliedIndex as int - ents[0].index as int + 1 < |ents|
                    then appliedIndex as int - ents[0].index as int + 1 else |ents|
    {
      nents, k := [], 0;
      if |ents| == 0 {
        return Running, nents, 0;
      }
      var firstIdx := ents[0].index;
      WrappedNext(appliedIndex);
      if firstIdx > Add64(appliedIndex, 1) {
        return Fatal, [], 0;
      }
      WrappedCount(appliedIndex, firstIdx);
      var skip := Add64(Sub64(appliedIndex, firstIdx), 1);
      if skip < |ents| as uint64 {
        nents := ents[skip as int..];
        return Running, nents, skip as nat;
      }
      return Running, nents, |ents|;
    }

    /** Publish one entry. `budget` is the number of channel sends that go
        through before the stop signal is taken. It fails exactly when they run
        out before the entry is done, or when the entry removes this node. */
    method PublishEntry(ghost log: RaftLog, ghost i: nat, ent: RaftEntry, budget: nat) returns (ok: bool, left: nat)
      requires appliedIndex as int == i < |log| && ent == RaftEntry((i + 1) as uint64, log[i])
      modifies `appliedIndex, `confChanges, `sent
      ensures log[i] == Conf(RemoveNode(id)) ==> !ok && appliedIndex as int == i && sent == old(sent)
      ensures log[i] != Conf(RemoveNode(id)) ==> (ok <==> |EntryMessages(log, i, lastIndex as int)| <= budget)
      ensures ok ==> appliedIndex as int == i + 1 && sent == old(sent) + EntryMessages(log, i, lastIndex as int)
      ensures ok ==> left == budget - |EntryMessages(log, i, lastIndex as int)|
      ensures !ok ==>
        if log[i] == Conf(RemoveNode(id)) || |EntryProposal(log, i)| > budget then
          appliedIndex as int == i && sent == old(sent)
        else
          appliedIndex as int == i + 1 && sent == old(sent) + EntryProposal(log, i)
      ensures confChanges == old(confChanges) + if log[i].Conf? then [log[i].change] else []
    {
      left := budget;
      match ent.payload {
        case Normal(op) =>
          if left == 0 {
            return false, left;
          }
          left := left - 1;
          sent := sent + [Proposal(ent.index as int, op)];
        case Empty =>
        case Conf(change) =>
          confChanges := confChanges + [change];
          if change == RemoveNode(id) {
            return false, left;
          }
      }
      appliedIndex := ent.index;
      if ent.index == lastIndex {
        if left == 0 {
          return false, left;
        }
        left := left - 1;
        sent := sent + [ReplayDone];
      }
      ok := true;
    }

    /** Publish entries `appliedIndex + 1` to `hi`. */
    method PublishEntries(ghost log: RaftLog, ents: seq<RaftEntry>, ghost hi: nat, budget: nat) returns (ok: bool)
      requires appliedIndex as int <= hi <= |log| && ents == Batch(log, appliedIndex as int, hi)
      modifies `appliedIndex, `confChanges, `sent
      ensures var from := old(appliedIndex) as int;
        && from <= appliedIndex as int <= hi
        && (ok <==> |Messages(log, from, hi, lastIndex as int)| <= budget
                      && forall i | from <= i < hi :: log[i] != Conf(RemoveNode(id)))
        && (forall i | from <= i < appliedIndex as int :: log[i] != Conf(RemoveNode(id)))
        && (!ok && |Messages(log, from, hi, lastIndex as int)| <= budget ==>
              appliedIndex as int < hi && log[appliedIndex as int] == Conf(RemoveNode(id)))
        && (ok ==> appliedIndex as int == hi && sent == old(sent) + Messages(log, from, hi, lastIndex as int))
        && SentUpTo(old(sent), sent, log, from, appliedIndex as int, lastIndex as int)
    {
      hide Messages, EntryMessages, EntryProposal, SentUpTo;
      var left := budget;
      ghost var a, before, last := appliedIndex as int, sent, lastIndex as int;
      NothingSent(log, id, a, last, sent);
      for i: nat := 0 to |ents|
        invariant appliedIndex as int == a + i
        invariant sent == before + Messages(log, a, a + i, last)
        invariant SentUpTo(before, sent, log, a, a + i, last)
        invariant left == budget - |Messages(log, a, a + i, last)|
        invariant forall j | a <= j < a + i :: log[j] != Conf(RemoveNode(id))
      {
        OneMore(before, sent, log, id, a, a + i, hi, last);
        ok, left := PublishEntry(log, a + i, ents[i], left);
        if !ok {
          return;
        }
      }
      ok := true;
    }

    /** A snapshot from the leader: signal the store and jump forward. */
    method PublishSnapshot(index: uint64) returns (outcome: Outcome)
      modifies `sent, `snapshotIndex, `appliedIndex
      ensures index == 0 ==> outcome == Running && unchanged(this)
      ensures index != 0 ==> outcome == if index <= old(appliedIndex) then Fatal else Running
      ensures index != 0 && outcome == Running ==>
        sent == old(sent) + [ReplayDone] && snapshotIndex == appliedIndex == index
    {
      if index == 0 {
        return Running;
      }
      if index <= appliedIndex {
        return Fatal;
      }
      sent := sent + [ReplayDone];
      snapshotIndex := index;
      appliedIndex := index;
      return Running;
    }

    /** Snapshot when more than SNAP_COUNT entries were applied since the last
        one, then compact the stored log. The storage accepts a snapshot only
        above its previous one, and a compaction only above its offset. */
    method MaybeTriggerSnapshot() returns (outcome: Outcome, compacted: uint64)
      requires Ordered()
      modifies `snapshotIndex, `storedSnapshot, `offset
      ensures Ordered()
      ensures outcome == Running
      ensures Checked(old(Indices())) == Some(Indices())
      ensures appliedIndex as int - old(snapshotIndex) as int <= 10000 ==>
        unchanged(this)
      ensures appliedIndex as int - old(snapshotIndex) as int > 10000 ==>
        && snapshotIndex == appliedIndex && offset == compacted
        && old(offset) < compacted <= appliedIndex
        && compacted as int == appliedIndex as int - 10000
    {
      compacted := 0;
      if Sub64(appliedIndex, snapshotIndex) <= SNAP_COUNT {
        return Running, compacted;
      }
      // CreateSnapshot
      if appliedIndex <= storedSnapshot || appliedIndex > lastStored {
        return Panic, compacted;
      }
      storedSnapshot := appliedIndex;
      compacted := 1;
      if appliedIndex > CATCH_UP_ENTRIES {
        compacted := Sub64(appliedIndex, CATCH_UP_ENTRIES);
      }
      // Compact
      if compacted <= offset || compacted > lastStored {
        return Panic, compacted;
      }
      offset := compacted;
      snapshotIndex := appliedIndex;
      return Running, compacted;
    }

    /** The committed entries of one turn of the event loop: fatal exactly on a
        gap, stopped exactly when publishing is. */
    method HandleCommitted(log: RaftLog, r: ReadyBatch) returns (outcome: Outcome)
      requires Ordered() && appliedIndex as int < MAX64 && appliedIndex as int <= |log|
      requires r.lo <= r.hi <= |log| && r.hi <= lastStored as int
      modifies `appliedIndex, `confChanges, `sent
      ensures Ordered() && outcome in {Running, Fatal, Stopped}
      ensures var from := old(appliedIndex) as int;
        && (outcome == Fatal <==> Gap(from, r))
        && (outcome == Running <==> Passes(log, id, lastIndex as int, from, r))
        && from <= appliedIndex as int <= Next(from, r)
        && (outcome == Fatal ==> unchanged(this))
        && (forall i | from <= i < appliedIndex as int :: log[i] != Conf(RemoveNode(id)))
        && (outcome == Stopped && |Messages(log, from, Next(from, r), lastIndex as int)| <= r.budget ==>
              appliedIndex as int < |log| && log[appliedIndex as int] == Conf(RemoveNode(id)))
        && (outcome == Running ==>
              && appliedIndex as int == Next(from, r)
              && sent == old(sent) + Messages(log, from, Next(from, r), lastIndex as int))
        && SentUpTo(old(sent), sent, log, from, appliedIndex as int, lastIndex as int)
    {
      ghost var from := appliedIndex as int;
      var ents := Batch(log, r.lo, r.hi);
      var nents;
      ghost var k;
      outcome, nents, k := EntriesToApply(ents);
      assert sent == sent + Messages(log, from, from, lastIndex as int);
      if outcome == Fatal {
        return;
      }
      if nents != [] {
        NewPart(log, r.lo, r.hi, appliedIndex as int);
        var ok := PublishEntries(log, nents, r.hi, r.budget);
        if !ok {
          outcome := Stopped;
        }
      }
    }

    /** One turn of the event loop: an optional leader snapshot (0: none), new
        log entries up to `r.stored`, a batch of committed entries. The indices
        stay ordered and neither the node's own checks on them nor the storage
        can fail, unless the batch leaves a gap. */
    method HandleReady(log: RaftLog, leaderSnap: uint64, r: ReadyBatch) returns (outcome: Outcome)
      requires Ordered() && appliedIndex <= r.stored && r.stored as int < MAX64
      requires leaderSnap == 0 || appliedIndex < leaderSnap <= r.stored
      requires appliedIndex as int <= |log| && leaderSnap as int <= |log|
      requires r.lo <= r.hi <= |log| && r.hi <= r.stored as int
      modifies this
      ensures Ordered() && outcome in {Running, Fatal, Stopped}
      ensures lastIndex == old(lastIndex) && lastStored == r.stored
      ensures var from := if leaderSnap == 0 then old(appliedIndex) as int else leaderSnap as int;
        var before := old(sent) + if leaderSnap == 0 then [] else [ReplayDone];
        && (outcome == Fatal <==> Gap(from, r))
        && (outcome == Running <==> Passes(log, id, lastIndex as int, from, r))
        && from <= appliedIndex as int <= Next(from, r)
        && (outcome == Running ==>
              && appliedIndex as int == Next(from, r)
              && sent == before + Messages(log, from, Next(from, r), lastIndex as int))
        && (outcome == Fatal ==> appliedIndex as int == from && sent == before)
        && SentUpTo(before, sent, log, from, appliedIndex as int, lastIndex as int)
      ensures var base :=
          if leaderSnap == 0 then old(Indices())
          else Compaction.Take(old(Indices()), Compaction.Install(leaderSnap as nat, r.stored as nat));
        var turned := base.(applied := appliedIndex as nat, stored := r.stored as nat);
        if outcome == Running then Checked(turned) == Some(Indices()) else Indices() == turned
    {
      assert sent == sent + [];
      if leaderSnap != 0 {
        offset, storedSnapshot := leaderSnap, leaderSnap;
        outcome := PublishSnapshot(leaderSnap);
      }
      lastStored := r.stored;
      outcome := HandleCommitted(log, r);
      if outcome == Running {
        var compacted;
        outcome, compacted := MaybeTriggerSnapshot();
      }
    }

    /** The event loop over any sequence of committed batches, which may overlap:
        whatever is stopped where, and unless the sends run out that is only at the
        first entry that removes this node, the proposals on the channel are those of the
        entries between the starting and the current `appliedIndex`; and while
        nothing stops it the channel has carried exactly their messages. It goes
        on exactly as long as every batch passes, and then has applied up to the
        largest index committed. The stored log always reaches to what was
        committed before. */
    method ServeChannels(log: RaftLog, batches: seq<ReadyBatch>) returns (outcome: Outcome, ghost handled: nat)
      requires Ordered() && InLog(log, appliedIndex as int, batches)
      requires forall i | 0 <= i < |batches| :: appliedIndex <= batches[i].stored && batches[i].stored as int < MAX64
      requires forall i, j | 0 <= i <= j < |batches| :: batches[i].hi <= batches[j].stored as int
      modifies this
      ensures Ordered() && outcome in {Running, Fatal, Stopped}
      ensures lastIndex == old(lastIndex)
      ensures old(appliedIndex) as int <= appliedIndex as int <= |log|
      ensures ProposalsOf(sent) == ProposalsOf(old(sent))
        + ProposalsOf(Messages(log, old(appliedIndex) as int, appliedIndex as int, lastIndex as int))
      ensures handled <= |batches|
      ensures forall i | old(appliedIndex) as int <= i < appliedIndex as int :: log[i] != Conf(RemoveNode(id))
      ensures var from, last := old(appliedIndex) as int, lastIndex as int;
        && AllPass(log, id, last, from, batches, handled)
        && (outcome == Running <==> handled == |batches|)
        && (outcome == Running ==>
              && appliedIndex as int == Reached(from, batches)
              && sent == old(sent) + Messages(log, from, Reached(from, batches), last)
              && CheckedTurns(old(Indices()), TurnsOf(from, batches)) == Some(Indices()))
        && (outcome != Running ==>
              && !BatchPasses(log, id, last, from, batches, handled)
              && var r, b := Reached(from, batches[..handled]), batches[handled];
              && (outcome == Fatal <==> Gap(r, b))
              && (outcome == Stopped ==>
                    && r <= Next(r, b) <= |log|
                    && (|Messages(log, r, Next(r, b), last)| <= b.budget ==>
                          appliedIndex as int < |log| && log[appliedIndex as int] == Conf(RemoveNode(id)))))
    {
      hide Messages, ProposalsOf, Passes, Gap, Next, Reached, BatchPasses, AllPass, SentUpTo, InLog, TurnsOf, CheckedTurns;
      outcome := Running;
      ghost var a, before, last := appliedIndex as int, sent, lastIndex as int;
      ghost var start := Indices();
      NothingServed(log, id, last, a, batches, sent);
      for i := 0 to |batches|
        invariant Ordered() && lastIndex == old(lastIndex) && outcome == Running
        invariant AllPass(log, id, last, a, batches, i)
        invariant a <= appliedIndex as int == Reached(a, batches[..i]) <= |log|
        invariant forall j | i <= j < |batches| :: appliedIndex <= batches[j].stored
        invariant forall j | a <= j < appliedIndex as int :: log[j] != Conf(RemoveNode(id))
        invariant sent == before + Messages(log, a, appliedIndex as int, last)
        invariant CheckedTurns(start, TurnsOf(a, batches[..i])) == Some(Indices())
      {
        ghost var turn := Indices();
        var r := batches[i];
        BatchStep(log, id, last, a, batches, i);
        lastStored := r.stored;
        ghost var b, mid := appliedIndex as int, sent;
        outcome := HandleCommitted(log, r);
        SentConcat(before, mid, sent, log, a, b, appliedIndex as int, last);
        if outcome != Running {
          handled := i;
          SentProposals(before, sent, log, a, appliedIndex as int, last);
          return;
        }
        OneMoreTurn(start, turn, a, batches, i);
        var compacted;
        outcome, compacted := MaybeTriggerSnapshot();
      }
      handled := |batches|;
      assert batches[..|batches|] == batches;
      SentAll(before, sent, log, a, appliedIndex as int, last);
    }
  }

  lemma SentAll(before: seq<CommitMsg>, sent: seq<CommitMsg>, log: RaftLog, a: nat, b: nat, lastIndex: nat)
    requires a <= b <= |log| && sent == before + Messages(log, a, b, lastIndex)
    ensures ProposalsOf(sent) == ProposalsOf(before) + ProposalsOf(Messages(log, a, b, lastIndex))
  {
    ProposalsConcat(before, Messages(log, a, b, lastIndex));
  }

  lemma OneMoreTurn(start: Compaction.Indices, s: Compaction.Indices, from: nat, batches: seq<ReadyBatch>, i: nat)
    requires i < |batches| && CheckedTurns(start, TurnsOf(from, batches[..i])) == Some(s)
    requires s.applied <= Reached(from, batches[..i + 1]) <= batches[i].stored as nat
    ensures CheckedTurns(start, TurnsOf(from, batches[..i + 1]))
         == Checked(s.(applied := Reached(from, batches[..i + 1]), stored := batches[i].stored as nat))
  {
    assert batches[..i + 1][..i] == batches[..i];
    var turns := TurnsOf(from, batches[..i + 1]);
    assert turns[..|turns| - 1] == TurnsOf(from, batches[..i]);
  }

  lemma NothingServed(log: RaftLog, id: uint64, lastIndex: nat, from: nat, batches: seq<ReadyBatch>, sent: seq<CommitMsg>)
    requires InLog(log, from, batches)
    ensures AllPass(log, id, lastIndex, from, batches, 0) && Reached(from, batches[..0]) == from <= |log|
    ensures TurnsOf(from, batches[..0]) == [] && forall s :: CheckedTurns(s, []) == Some(s)
    ensures sent + Messages(log, from, from, lastIndex) == sent
  {
  }

  /** On the channel since `before`: the messages of positions `a` to `b - 1`,
      except possibly a final signal that was cut off. */
  ghost predicate SentUpTo(before: seq<CommitMsg>, sent: seq<CommitMsg>, log: RaftLog, a: nat, b: nat, lastIndex: nat)
    requires a <= b <= |log|
  {
    || sent == before + Messages(log, a, b, lastIndex)
    || (a < b && sent == before + Messages(log, a, b - 1, lastIndex) + EntryProposal(log, b - 1))
  }

  lemma SentConcat(before: seq<CommitMsg>, mid: seq<CommitMsg>, sent: seq<CommitMsg>,
                   log: RaftLog, a: nat, b: nat, c: nat, lastIndex: nat)
    requires a <= b <= c <= |log|
    requires mid == before + Messages(log, a, b, lastIndex)
    requires SentUpTo(mid, sent, log, b, c, lastIndex)
    ensures SentUpTo(before, sent, log, a, c, lastIndex)
    ensures sent == mid + Messages(log, b, c, lastIndex) ==> sent == before + Messages(log, a, c, lastIndex)
  {
    MessagesConcat(log, a, b, c, lastIndex);
    Assoc(before, Messages(log, a, b, lastIndex), Messages(log, b, c, lastIndex));
    if b < c {
      MessagesConcat(log, a, b, c - 1, lastIndex);
      Assoc(before, Messages(log, a, b, lastIndex), Messages(log, b, c - 1, lastIndex));
    }
  }

  lemma SentProposals(before: seq<CommitMsg>, sent: seq<CommitMsg>, log: RaftLog, a: nat, b: nat, lastIndex: nat)
    requires a <= b <= |log| && SentUpTo(before, sent, log, a, b, lastIndex)
    ensures ProposalsOf(sent) == ProposalsOf(before) + ProposalsOf(Messages(log, a, b, lastIndex))
  {
    var m := Messages(log, a, b, lastIndex);
    if sent == before + m {
      ProposalsConcat(before, m);
    } else {
      CutProposals(before, Messages(log, a, b - 1, lastIndex), log, b - 1, lastIndex);
    }
  }

  lemma {:induction false} ProposalsConcat(a: seq<CommitMsg>, b: seq<CommitMsg>)
    ensures ProposalsOf(a + b) == ProposalsOf(a) + ProposalsOf(b)
  {
    if b == [] {
      assert a + b == a;
    } else {
      var n := |b| - 1;
      assert (a + b)[..|a| + n] == a + b[..n];
      ProposalsConcat(a, b[..n]);
    }
  }

  lemma NothingSent(log: RaftLog, id: uint64, a: nat, lastIndex: nat, sent: seq<CommitMsg>)
    requires a <= |log|
    ensures sent == sent + Messages(log, a, a, lastIndex) && |Messages(log, a, a, lastIndex)| == 0
    ensures SentUpTo(sent, sent, log, a, a, lastIndex) && Keeps(log, id, a, a)
  {
  }

  /** One more entry of a batch up to `hi`. */
  lemma OneMore(before: seq<CommitMsg>, sent: seq<CommitMsg>, log: RaftLog, id: uint64, a: nat, i: nat, hi: nat, lastIndex: nat)
    requires a <= i < hi <= |log| && sent == before + Messages(log, a, i, lastIndex)
    ensures var e, next := EntryMessages(log, i, lastIndex), Messages(log, a, i + 1, lastIndex);
      && |Messages(log, a, i, lastIndex)| + |e| == |next| <= |Messages(log, a, hi, lastIndex)|
      && sent + e == before + next
      && SentUpTo(before, sent, log, a, i, lastIndex)
      && SentUpTo(before, sent + e, log, a, i + 1, lastIndex)
      && SentUpTo(before, sent + EntryProposal(log, i), log, a, i + 1, lastIndex)
  {
    MessagesSnoc(before, log, a, i, lastIndex);
    MessagesConcat(log, a, i + 1, hi, lastIndex);
  }

  lemma MessagesSnoc(before: seq<CommitMsg>, log: RaftLog, a: nat, b: nat, lastIndex: nat)
    requires a <= b < |log|
    ensures before + Messages(log, a, b, lastIndex) + EntryMessages(log, b, lastIndex)
         == before + Messages(log, a, b + 1, lastIndex)
  {
    Assoc(before, Messages(log, a, b, lastIndex), EntryMessages(log, b, lastIndex));
  }

  /** Without its signal an entry still has its proposal. */
  lemma CutProposals(before: seq<CommitMsg>, m: seq<CommitMsg>, log: RaftLog, i: nat, lastIndex: nat)
    requires i < |log|
    ensures ProposalsOf(before + m + EntryProposal(log, i))
         == ProposalsOf(before) + ProposalsOf(m + EntryMessages(log, i, lastIndex))
  {
    ProposalsConcat(before, m);
    ProposalsConcat(before + m, EntryProposal(log, i));
    ProposalsConcat(m, EntryMessages(log, i, lastIndex));
    EntrySignals(log, i, lastIndex);
    Assoc(ProposalsOf(before), ProposalsOf(m), EntryProposal(log, i));
  }

  lemma Assoc<T>(a: seq<T>, b: seq<T>, c: seq<T>)
    ensures (a + b) + c == a + (b + c)
  {
  }

  /** Cutting an overlapping batch after `from` leaves the new entries. */
  lemma NewPart(log: RaftLog, lo: nat, hi: nat, from: nat)
    requires lo <= from <= hi <= |log|
    ensures Batch(log, lo, hi)[from - lo..] == Batch(log, from, hi)
  {
  }
}

/** The in-memory store as a value, the log of committed operations, and the
    fold of the log that every other store is measured against. */
module FlatStore {
  import opened Records

  type TypeMap = map<nat, seq<string>>
  type Store = map<string, TypeMap>

  datatype Op = AddRR(rrString: string) | DeleteRR(name: string, rrType: nat)

  /** A committed log entry: a proposal, or an empty or configuration entry
      that never reaches the store. Log position `i` has index `i + 1`. */
  datatype Entry = Data(op: Op) | NoData

  /** What the commit channel carries: a proposal with its log index, or the nil
      that signals the end of replay or a snapshot to load. */
  datatype CommitMsg = Proposal(index: nat, op: Op) | ReplayDone

  function TypeMapOf(s: Store, name: string): TypeMap {
    if name in s then s[name] else map[]
  }

  function StringsIn(typeMap: TypeMap, rrType: nat): seq<string> {
    if rrType in typeMap then typeMap[rrType] else []
  }

  function StringsOf(s: Store, name: string, rrType: nat): seq<string> {
    StringsIn(TypeMapOf(s, name), rrType)
  }

  function InsertInto(lib: Lib, s: Store, rr: RR): Store {
    var name := lib.lower(rr.name);
    var tm := if name in s then s[name] else map[];
    var rrs := if rr.rrType in tm then tm[rr.rrType] else [];
    s[name := tm[rr.rrType := rrs + [lib.format(rr)]]]
  }

  function DeleteFrom(s: Store, name: string, rrType: nat): Store {
    if name !in s then s
    else
      var tm := s[name] - {rrType};
      if |tm| == 0 then s - {name} else s[name := tm]
  }

  function ApplyOp(lib: Lib, s: Store, op: Op): Store {
    match op
    case AddRR(str) =>
      var parsed := lib.parse(str);
      if parsed.Good? then InsertInto(lib, s, parsed.rr) else s
    case DeleteRR(name, rrType) => DeleteFrom(s, name, rrType)
  }

  function ApplyEntry(lib: Lib, s: Store, e: Entry): Store {
    if e.Data? then ApplyOp(lib, s, e.op) else s
  }

  /** The store after the first `n` entries of the log. */
  function StateAt(lib: Lib, log: seq<Entry>, n: nat): Store
    requires n <= |log|
  {
    if n == 0 then map[] else ApplyEntry(lib, StateAt(lib, log, n - 1), log[n - 1])
  }

  /** The store after replaying entries `i + 1` to `j` on top of `s`. */
  function Replay(lib: Lib, s: Store, log: seq<Entry>, i: nat, j: nat): Store
    requires i <= j <= |log|
    decreases j - i
  {
    if i == j then s else Replay(lib, ApplyEntry(lib, s, log[i]), log, i + 1, j)
  }

  /** Snapshot plus replay equals full replay. */
  lemma {:induction false} SnapshotPlusReplay(lib: Lib, log: seq<Entry>, i: nat, j: nat)
    requires i <= j <= |log|
    ensures Replay(lib, StateAt(lib, log, i), log, i, j) == StateAt(lib, log, j)
    decreases j - i
  {
    if i < j {
      SnapshotPlusReplay(lib, log, i + 1, j);
    }
  }

  lemma {:induction false} ReplayConcat(lib: Lib, s: Store, log: seq<Entry>, i: nat, j: nat, k: nat)
    requires i <= j <= k <= |log|
    ensures Replay(lib, Replay(lib, s, log, i, j), log, j, k) == Replay(lib, s, log, i, k)
    decreases j - i
  {
    if i < j {
      ReplayConcat(lib, ApplyEntry(lib, s, log[i]), log, i + 1, j, k);
    }
  }

  lemma {:induction false} StateAtPrefix(lib: Lib, log: seq<Entry>, log': seq<Entry>, n: nat)
    requires n <= |log| && log <= log'
    ensures StateAt(lib, log', n) == StateAt(lib, log, n)
  {
    if n > 0 {
      StateAtPrefix(lib, log, log', n - 1);
    }
  }

  // ----- no-ops -----

  /** No name is stored without at least one record type. */
  ghost predicate Trim(s: Store) {
    forall n :: n in s ==> |s[n]| > 0
  }

  lemma {:induction false} StateAtTrim(lib: Lib, log: seq<Entry>, n: nat)
    requires n <= |log|
    ensures Trim(StateAt(lib, log, n))
  {
    if n > 0 {
      StateAtTrim(lib, log, n - 1);
    }
  }

  /** What the store can tell before applying `op`: it will not change anything. */
  predicate NoOp(lib: Lib, s: Store, op: Op) {
    match op
    case AddRR(str) => !lib.parse(str).Good?
    case DeleteRR(name, rrType) => name !in s || rrType !in s[name]
  }

  lemma NoOpIffUnchanged(lib: Lib, s: Store, op: Op)
    requires Trim(s)
    ensures NoOp(lib, s, op) <==> ApplyOp(lib, s, op) == s
  {
    match op
    case AddRR(str) =>
      if !NoOp(lib, s, op) {
        var rr := lib.parse(str).rr;
        var name := lib.lower(rr.name);
        var s' := InsertInto(lib, s, rr);
        assert name in s' && rr.rrType in s'[name];
        if name in s && rr.rrType in s[name] {
          assert |s'[name][rr.rrType]| == |s[name][rr.rrType]| + 1;
        }
      }
    case DeleteRR(name, rrType) =>
      if NoOp(lib, s, op) {
        if name in s {
          assert s[name] - {rrType} == s[name];
        }
      } else {
        var tm := s[name] - {rrType};
        assert rrType !in tm;
        if |tm| == 0 {
          assert name !in s - {name};
        }
      }
  }

  /** Replaying what follows index `|log|` on top of `s` gives the whole log. */
  ghost predicate RecoversFrom(lib: Lib, s: Store, log: seq<Entry>, more: seq<Entry>) {
    Replay(lib, s, log + more, |log|, |log + more|) == StateAt(lib, log + more, |log + more|)
  }

  lemma RecoveryFromPrefixState(lib: Lib, log: seq<Entry>, more: seq<Entry>)
    ensures RecoversFrom(lib, StateAt(lib, log, |log|), log, more)
  {
    hide StateAt, Replay;
    StateAtPrefix(lib, log, log + more, |log|);
    SnapshotPlusReplay(lib, log + more, |log|, |log + more|);
  }

  lemma EmptyContinuation(lib: Lib, s: Store, log: seq<Entry>)
    ensures RecoversFrom(lib, s, log, []) <==> s == StateAt(lib, log, |log|)
  {
    hide StateAt;
    assert log + [] == log;
  }

  /** A snapshot labelled `|log|` but taken while the last entry is still to be
      applied: recovery from it is right for every continuation of the log
      exactly when that entry is a no-op. */
  lemma LaggingSnapshotIff(lib: Lib, log: seq<Entry>, s: Store)
    requires log != [] && log[|log| - 1].Data? && s == StateAt(lib, log, |log| - 1)
    ensures (forall more :: RecoversFrom(lib, s, log, more)) <==> NoOp(lib, s, log[|log| - 1].op)
  {
    hide NoOp, RecoversFrom, ApplyOp;
    StateAtTrim(lib, log, |log| - 1);
    NoOpIffUnchanged(lib, s, log[|log| - 1].op);
    EmptyContinuation(lib, s, log);
    if NoOp(lib, s, log[|log| - 1].op) {
      forall more
        ensures RecoversFrom(lib, s, log, more)
      {
        RecoveryFromPrefixState(lib, log, more);
      }
    }
  }

  // ----- what a log leaves under one name and type -----

  predicate Adds(lib: Lib, e: Entry, name: string, rrType: nat) {
    e.Data? && e.op.AddRR? && lib.parse(e.op.rrString).Good?
    && lib.lower(lib.parse(e.op.rrString).rr.name) == name && lib.parse(e.op.rrString).rr.rrType == rrType
  }

  /** The records added under a name and type since they were last deleted, in
      log order. Adds are filed in lower case, deletes are taken literally. */
  function LogStrings(lib: Lib, log: seq<Entry>, n: nat, name: string, rrType: nat): seq<string>
    requires n <= |log|
  {
    if n == 0 then []
    else
      var e := log[n - 1];
      if e == Data(DeleteRR(name, rrType)) then []
      else
        LogStrings(lib, log, n - 1, name, rrType)
          + if Adds(lib, e, name, rrType) then [lib.format(lib.parse(e.op.rrString).rr)] else []
  }

  /** The store holds exactly that, and nothing else. */
  lemma {:induction false} StoreIsLog(lib: Lib, log: seq<Entry>, n: nat, name: string, rrType: nat)
    requires n <= |log|
    ensures var s, strs := StateAt(lib, log, n), LogStrings(lib, log, n, name, rrType);
      && (name in s && rrType in s[name] <==> strs != [])
      && (strs != [] ==> s[name][rrType] == strs)
  {
    if n > 0 {
      StoreIsLog(lib, log, n - 1, name, rrType);
      var s, e := StateAt(lib, log, n - 1), log[n - 1];
      if e.Data? && e.op.DeleteRR? {
        DeleteAt(s, e.op.name, e.op.rrType, name);
        StateAtTrim(lib, log, n - 1);
      }
    }
  }

  /** The records themselves. */
  function AddedRecords(lib: Lib, log: seq<Entry>, n: nat, name: string, rrType: nat): seq<RR>
    requires n <= |log|
  {
    if n == 0 || log[n - 1] == Data(DeleteRR(name, rrType)) then []
    else
      AddedRecords(lib, log, n - 1, name, rrType)
        + if Adds(lib, log[n - 1], name, rrType) then [lib.parse(log[n - 1].op.rrString).rr] else []
  }

  function Printed(lib: Lib, rrs: seq<RR>): (strs: seq<string>)
    ensures |strs| == |rrs|
    ensures forall i | 0 <= i < |rrs| :: strs[i] == lib.format(rrs[i])
  {
    seq(|rrs|, i requires 0 <= i < |rrs| => lib.format(rrs[i]))
  }

  lemma {:induction false} LogStringsPrinted(lib: Lib, log: seq<Entry>, n: nat, name: string, rrType: nat)
    requires n <= |log|
    ensures LogStrings(lib, log, n, name, rrType) == Printed(lib, AddedRecords(lib, log, n, name, rrType))
  {
    if n > 0 {
      LogStringsPrinted(lib, log, n - 1, name, rrType);
    }
  }

  /** The entry at position `p` adds a record under the name and type, and no
      entry after it, up to index `n`, deletes them. */
  ghost predicate AddedAndKept(lib: Lib, log: seq<Entry>, p: nat, n: nat, name: string, rrType: nat)
    requires n <= |log|
  {
    && p < n && log[p].Data? && log[p].op.AddRR? && lib.parse(log[p].op.rrString).Good?
    && lib.lower(lib.parse(log[p].op.rrString).rr.name) == name
    && lib.parse(log[p].op.rrString).rr.rrType == rrType
    && forall k | p < k < n :: log[k] != Data(DeleteRR(name, rrType))
  }

  lemma {:induction false} RecordPositions(lib: Lib, log: seq<Entry>, n: nat, name: string, rrType: nat)
    returns (pos: seq<nat>)
    requires n <= |log|
    ensures forall i, j | 0 <= i < j < |pos| :: pos[i] < pos[j]
    ensures forall p :: p in pos <==> AddedAndKept(lib, log, p, n, name, rrType)
    ensures |AddedRecords(lib, log, n, name, rrType)| == |pos|
    ensures forall i | 0 <= i < |pos| ::
      && AddedAndKept(lib, log, pos[i], n, name, rrType)
      && Good(AddedRecords(lib, log, n, name, rrType)[i]) == lib.parse(log[pos[i]].op.rrString)
  {
    pos := [];
    if n > 0 && log[n - 1] != Data(DeleteRR(name, rrType)) {
      var front := RecordPositions(lib, log, n - 1, name, rrType);
      pos := front;
      if Adds(lib, log[n - 1], name, rrType) {
        pos := front + [n - 1];
        assert AddedAndKept(lib, log, n - 1, n, name, rrType);
      }
      forall p: nat
        ensures p in pos <==> AddedAndKept(lib, log, p, n, name, rrType)
      {
        assert p < n - 1 ==>
          (AddedAndKept(lib, log, p, n, name, rrType) <==> AddedAndKept(lib, log, p, n - 1, name, rrType));
      }
    }
  }

  /** Under a name and type the store holds, in log order, one printed record for
      each entry that added one there and has no delete of them after it. */
  lemma StoreIsAdds(lib: Lib, log: seq<Entry>, n: nat, name: string, rrType: nat) returns (pos: seq<nat>)
    requires n <= |log|
    ensures forall i, j | 0 <= i < j < |pos| :: pos[i] < pos[j]
    ensures forall p :: p in pos <==> AddedAndKept(lib, log, p, n, name, rrType)
    ensures var s := StateAt(lib, log, n);
      && (name in s && rrType in s[name] <==> pos != [])
      && (pos != [] ==>
            && |s[name][rrType]| == |pos|
            && forall i | 0 <= i < |pos| ::
                 && AddedAndKept(lib, log, pos[i], n, name, rrType)
                 && s[name][rrType][i] == lib.format(lib.parse(log[pos[i]].op.rrString).rr))
  {
    hide StateAt, AddedRecords, LogStrings;
    pos := RecordPositions(lib, log, n, name, rrType);
    StoreIsLog(lib, log, n, name, rrType);
    LogStringsPrinted(lib, log, n, name, rrType);
  }

  // ----- stretches of the log that leave no trace -----

  /** Whether entries `i + 1` to `j` delete a name and type. */
  predicate DeletedIn(log: seq<Entry>, i: nat, j: nat, name: string, rrType: nat)
    requires i <= j <= |log|
  {
    exists k :: i <= k < j && log[k] == Data(DeleteRR(name, rrType))
  }

  /** What they add under it, since their last such delete. */
  function AddedIn(lib: Lib, log: seq<Entry>, i: nat, j: nat, name: string, rrType: nat): seq<string>
    requires i <= j <= |log|
    decreases j
  {
    if i == j || log[j - 1] == Data(DeleteRR(name, rrType)) then []
    else
      AddedIn(lib, log, i, j - 1, name, rrType)
        + if Adds(lib, log[j - 1], name, rrType) then [lib.format(lib.parse(log[j - 1].op.rrString).rr)] else []
  }

  /** Under every name and type, entries `i + 1` to `j` add nothing, or delete
      what was there and add the very same strings again. */
  ghost predicate LeavesNoTrace(lib: Lib, log: seq<Entry>, i: nat, j: nat)
    requires i <= j <= |log|
  {
    forall name, rrType ::
      AddedIn(lib, log, i, j, name, rrType)
        == if DeletedIn(log, i, j, name, rrType) then LogStrings(lib, log, i, name, rrType) else []
  }

  lemma {:induction false} LogStringsSplit(lib: Lib, log: seq<Entry>, i: nat, j: nat, name: string, rrType: nat)
    requires i <= j <= |log|
    ensures LogStrings(lib, log, j, name, rrType)
         == (if DeletedIn(log, i, j, name, rrType) then [] else LogStrings(lib, log, i, name, rrType))
              + AddedIn(lib, log, i, j, name, rrType)
  {
    if i < j {
      LogStringsSplit(lib, log, i, j - 1, name, rrType);
    }
  }

  /** The log between two indices has no effect exactly when it leaves no trace. */
  lemma UnchangedIff(lib: Lib, log: seq<Entry>, i: nat, j: nat)
    requires i <= j <= |log|
    ensures StateAt(lib, log, i) == StateAt(lib, log, j) <==> LeavesNoTrace(lib, log, i, j)
  {
    hide LogStrings, AddedIn, DeletedIn, StateAt, StringsOf;
    var s, t := StateAt(lib, log, i), StateAt(lib, log, j);
    forall name, rrType
      ensures StringsOf(s, name, rrType) == LogStrings(lib, log, i, name, rrType)
      ensures StringsOf(t, name, rrType)
           == (if DeletedIn(log, i, j, name, rrType) then [] else LogStrings(lib, log, i, name, rrType))
                + AddedIn(lib, log, i, j, name, rrType)
    {
      StringsOfLog(lib, log, i, name, rrType);
      StringsOfLog(lib, log, j, name, rrType);
      LogStringsSplit(lib, log, i, j, name, rrType);
    }
    forall name, rrType
      ensures StringsOf(s, name, rrType) == StringsOf(t, name, rrType)
        <==> AddedIn(lib, log, i, j, name, rrType)
               == if DeletedIn(log, i, j, name, rrType) then LogStrings(lib, log, i, name, rrType) else []
    {
      SuffixEmpty(LogStrings(lib, log, i, name, rrType), AddedIn(lib, log, i, j, name, rrType));
    }
    if LeavesNoTrace(lib, log, i, j) {
      StateAtTight(lib, log, i);
      StateAtTight(lib, log, j);
      SameStore(s, t);
    }
  }

  lemma SuffixEmpty<T>(a: seq<T>, b: seq<T>)
    ensures a == a + b <==> b == []
    ensures [] + b == b
  {
    if b != [] {
      assert |a + b| > |a|;
    }
  }

  lemma StringsOfLog(lib: Lib, log: seq<Entry>, n: nat, name: string, rrType: nat)
    requires n <= |log|
    ensures var s := StateAt(lib, log, n);
      && StringsOf(s, name, rrType) == LogStrings(lib, log, n, name, rrType)
      && (rrType in TypeMapOf(s, name) ==> StringsOf(s, name, rrType) != [])
  {
    StoreIsLog(lib, log, n, name, rrType);
  }

  /** No name without a type, no type without a string. */
  ghost predicate Tight(s: Store) {
    Trim(s) && forall name, rrType | rrType in TypeMapOf(s, name) :: StringsOf(s, name, rrType) != []
  }

  lemma StateAtTight(lib: Lib, log: seq<Entry>, n: nat)
    requires n <= |log|
    ensures Tight(StateAt(lib, log, n))
  {
    StateAtTrim(lib, log, n);
    forall name, rrType { StringsOfLog(lib, log, n, name, rrType); }
  }

  lemma SameStore(s: Store, t: Store)
    requires Tight(s) && Tight(t)
    requires forall name, rrType :: StringsOf(s, name, rrType) == StringsOf(t, name, rrType)
    ensures s == t
  {
    forall name: string
      ensures name in s <==> name in t
      ensures name in s ==> s[name] == t[name]
    {
      SameTypes(s, t, name);
    }
  }

  lemma SameTypes(s: Store, t: Store, name: string)
    requires Tight(s) && Tight(t)
    requires forall rrType :: StringsOf(s, name, rrType) == StringsOf(t, name, rrType)
    ensures name in s <==> name in t
    ensures name in s ==> s[name] == t[name]
  {
    forall rrType: nat
      ensures rrType in TypeMapOf(s, name) <==> rrType in TypeMapOf(t, name)
      ensures rrType in TypeMapOf(s, name) ==> s[name][rrType] == t[name][rrType]
    {
      assert StringsOf(s, name, rrType) == StringsOf(t, name, rrType);
    }
    assert TypeMapOf(s, name) == TypeMapOf(t, name);
  }

  /** The log with entries `d + 1` to `a` left out, up to `m`. */
  function Spliced(log: seq<Entry>, d: nat, a: nat, m: nat): seq<Entry>
    requires d <= a <= m <= |log|
  {
    log[..d] + log[a..m]
  }

  lemma SliceOfSlice<T>(s: seq<T>, i: nat, n: nat, p: nat, q: nat)
    requires i + n <= |s| && p <= q <= n
    ensures s[i..i + n][p..q] == s[i + p..i + q]
    ensures p < n ==> s[i..i + n][p] == s[i + p]
  {
    var x, y, z := s[i..i + n], s[i..i + n][p..q], s[i + p..i + q];
    forall k | 0 <= k < q - p
      ensures y[k] == z[k]
    {
      assert y[k] == x[p + k] == s[i + (p + k)] == z[k];
    }
    assert y == z;
  }

  lemma SlicesAgree<T>(s: seq<T>, t: seq<T>, i: nat, j: nat, n: nat)
    requires 0 < n && i + n <= |s| && j + n <= |t| && s[i..i + n] == t[j..j + n]
    ensures s[i] == t[j] && s[i + 1..i + n] == t[j + 1..j + n]
    ensures s[i + n - 1] == t[j + n - 1] && s[i..i + n - 1] == t[j..j + n - 1]
  {
    SliceOfSlice(s, i, n, 0, n - 1);
    SliceOfSlice(t, j, n, 0, n - 1);
    SliceOfSlice(s, i, n, 1, n);
    SliceOfSlice(t, j, n, 1, n);
    SliceOfSlice(s, i, n, n - 1, n - 1);
    SliceOfSlice(t, j, n, n - 1, n - 1);
  }

  lemma {:induction false} ReplayShifted(lib: Lib, s: Store, log: seq<Entry>, log': seq<Entry>, i: nat, i': nat, n: nat)
    requires i + n <= |log| && i' + n <= |log'|
    requires log[i..i + n] == log'[i'..i' + n]
    ensures Replay(lib, s, log, i, i + n) == Replay(lib, s, log', i', i' + n)
    decreases n
  {
    if n > 0 {
      SlicesAgree(log, log', i, i', n);
      ReplayShifted(lib, ApplyEntry(lib, s, log[i]), log, log', i + 1, i' + 1, n - 1);
    }
  }

  lemma {:induction false} AddedShifted(lib: Lib, log: seq<Entry>, log': seq<Entry>, i: nat, i': nat, n: nat,
                                        name: string, rrType: nat)
    requires i + n <= |log| && i' + n <= |log'|
    requires log[i..i + n] == log'[i'..i' + n]
    ensures AddedIn(lib, log, i, i + n, name, rrType) == AddedIn(lib, log', i', i' + n, name, rrType)
    ensures DeletedIn(log, i, i + n, name, rrType) == DeletedIn(log', i', i' + n, name, rrType)
  {
    if n > 0 {
      SlicesAgree(log, log', i, i', n);
      AddedShifted(lib, log, log', i, i', n - 1, name, rrType);
      DeletedMore(log, i, i + n, name, rrType);
      DeletedMore(log', i', i' + n, name, rrType);
    }
  }

  lemma DeletedMore(log: seq<Entry>, i: nat, j: nat, name: string, rrType: nat)
    requires i < j <= |log|
    ensures DeletedIn(log, i, j, name, rrType)
      <==> DeletedIn(log, i, j - 1, name, rrType) || log[j - 1] == Data(DeleteRR(name, rrType))
  {
  }

  /** Applying entries `a + 1` to `m` to the state at `d`. */
  lemma OmittingIsSplicing(lib: Lib, log: seq<Entry>, d: nat, a: nat, m: nat)
    requires d <= a <= m <= |log|
    ensures var short := Spliced(log, d, a, m);
      Replay(lib, StateAt(lib, log, d), log, a, m) == StateAt(lib, short, |short|)
  {
    hide StateAt, Replay;
    var short := Spliced(log, d, a, m);
    StateAtPrefix(lib, log[..d], log, d);
    StateAtPrefix(lib, log[..d], short, d);
    ReplayShifted(lib, StateAt(lib, log, d), log, short, a, d, m - a);
    SnapshotPlusReplay(lib, short, d, |short|);
  }

  /** Under every name and type, the log without entries `d + 1` to `a` leaves at
      `m` the strings that the whole log leaves at `b`. */
  ghost predicate OmissionUnseen(lib: Lib, log: seq<Entry>, d: nat, a: nat, m: nat, b: nat)
    requires d <= a <= m <= b <= |log|
  {
    forall name, rrType ::
      (if DeletedIn(log, a, m, name, rrType) then [] else LogStrings(lib, log, d, name, rrType))
          + AddedIn(lib, log, a, m, name, rrType)
        == LogStrings(lib, log, b, name, rrType)
  }

  lemma OmittedStrings(lib: Lib, log: seq<Entry>, d: nat, a: nat, m: nat, name: string, rrType: nat)
    requires d <= a <= m <= |log|
    ensures var short := Spliced(log, d, a, m);
      LogStrings(lib, short, |short|, name, rrType)
        == (if DeletedIn(log, a, m, name, rrType) then [] else LogStrings(lib, log, d, name, rrType))
             + AddedIn(lib, log, a, m, name, rrType)
  {
    hide StateAt, LogStrings, AddedIn, DeletedIn;
    var short := Spliced(log, d, a, m);
    LogStringsSplit(lib, short, d, |short|, name, rrType);
    AddedShifted(lib, log, short, a, d, m - a, name, rrType);
    LogStringsPrefix(lib, log[..d], log, d, name, rrType);
    LogStringsPrefix(lib, log[..d], short, d, name, rrType);
  }

  lemma {:induction false} LogStringsPrefix(lib: Lib, log: seq<Entry>, log': seq<Entry>, n: nat, name: string, rrType: nat)
    requires n <= |log| && log <= log'
    ensures LogStrings(lib, log', n, name, rrType) == LogStrings(lib, log, n, name, rrType)
  {
    if n > 0 {
      LogStringsPrefix(lib, log, log', n - 1, name, rrType);
    }
  }

  /** Leaving entries out gives the same store exactly when it cannot be seen
      under any name and type. */
  lemma OmissionUnseenIff(lib: Lib, log: seq<Entry>, d: nat, a: nat, m: nat, b: nat)
    requires d <= a <= m <= b <= |log|
    ensures Replay(lib, StateAt(lib, log, d), log, a, m) == StateAt(lib, log, b)
      <==> OmissionUnseen(lib, log, d, a, m, b)
  {
    hide LogStrings, AddedIn, DeletedIn, StateAt, StringsOf, Spliced, Tight, Replay;
    var short := Spliced(log, d, a, m);
    OmittingIsSplicing(lib, log, d, a, m);
    var s, t := StateAt(lib, short, |short|), StateAt(lib, log, b);
    forall name, rrType
      ensures StringsOf(s, name, rrType)
           == (if DeletedIn(log, a, m, name, rrType) then [] else LogStrings(lib, log, d, name, rrType))
                + AddedIn(lib, log, a, m, name, rrType)
      ensures StringsOf(t, name, rrType) == LogStrings(lib, log, b, name, rrType)
    {
      OmittedStrings(lib, log, d, a, m, name, rrType);
      StringsOfLog(lib, short, |short|, name, rrType);
      StringsOfLog(lib, log, b, name, rrType);
    }
    if OmissionUnseen(lib, log, d, a, m, b) {
      StateAtTight(lib, short, |short|);
      StateAtTight(lib, log, b);
      SameStore(s, t);
    }
  }

  // ----- adds and deletes of the same record -----

  /** A delete removes what was added before exactly when it names the record in
      lower case. Otherwise everything stays, the new record last. */
  lemma DeleteAfterAddIff(lib: Lib, s: Store, str: string, name: string)
    requires lib.parse(str).Good?
    ensures var rr := lib.parse(str).rr;
      var owner := lib.lower(rr.name);
      var s' := ApplyOp(lib, ApplyOp(lib, s, AddRR(str)), DeleteRR(name, rr.rrType));
      && (owner in s' && rr.rrType in s'[owner] <==> name != owner)
      && (name != owner ==>
            s'[owner][rr.rrType] ==
              (if owner in s && rr.rrType in s[owner] then s[owner][rr.rrType] else []) + [lib.format(rr)])
  {
    var rr := lib.parse(str).rr;
    DeleteAt(ApplyOp(lib, s, AddRR(str)), name, rr.rrType, lib.lower(rr.name));
  }

  /** A log that adds `A.` and deletes `A.`, spelled the same both times. */
  lemma UpperCaseDeleteFails() returns (lib: Lib, log: seq<Entry>)
    ensures |log| == 2 && log[0] == Data(AddRR("A. 60 IN A 10.0.0.1")) && log[1] == Data(DeleteRR("A.", TYPE_A))
    ensures lib.parse("A. 60 IN A 10.0.0.1") == Good(RR("A.", TYPE_A, 60, Other("10.0.0.1")))
    ensures lib.lower("A.") == "a."
    ensures StateAt(lib, log, 2) == StateAt(lib, log, 1) == map["a." := map[TYPE_A := ["A. 60 IN A 10.0.0.1"]]]
  {
    var rr := RR("A.", TYPE_A, 60, Other("10.0.0.1"));
    lib := Lib(_ => 0, s => if s == "A." then "a." else s, _ => Good(rr), _ => "A. 60 IN A 10.0.0.1");
    log := [Data(AddRR("A. 60 IN A 10.0.0.1")), Data(DeleteRR("A.", TYPE_A))];
    var s: Store := map["a." := map[TYPE_A := ["A. 60 IN A 10.0.0.1"]]];
    assert StateAt(lib, log, 1) == s by {
      assert StateAt(lib, log, 0) == map[];
      assert lib.lower(rr.name) == "a." && [] + [lib.format(rr)] == ["A. 60 IN A 10.0.0.1"];
    }
    assert StateAt(lib, log, 2) == DeleteFrom(s, "A.", TYPE_A);
    assert "A."[0] != "a."[0];
  }

  // ----- projection to one page -----

  /** The part of a store whose names hash to page `p`. */
  function Proj(lib: Lib, s: Store, p: nat): Store {
    map n | n in s && PageOf(lib, n) == p :: s[n]
  }

  /** The one name an operation can read or write; unparseable adds have none. */
  function Target(lib: Lib, op: Op): Option<string> {
    match op
    case AddRR(str) =>
      var parsed := lib.parse(str);
      if parsed.Good? then Some(lib.lower(parsed.rr.name)) else None
    case DeleteRR(name, _) => Some(name)
  }

  predicate Touches(lib: Lib, op: Op, p: nat) {
    var t := Target(lib, op);
    t.Some? && PageOf(lib, t.value) == p
  }

  lemma ProjInsert(lib: Lib, s: Store, rr: RR, p: nat)
    ensures Proj(lib, InsertInto(lib, s, rr), p)
         == if PageOf(lib, lib.lower(rr.name)) == p then InsertInto(lib, Proj(lib, s, p), rr) else Proj(lib, s, p)
  {
    var name := lib.lower(rr.name);
    if PageOf(lib, name) == p {
      assert name in s <==> name in Proj(lib, s, p);
    }
  }

  lemma DeleteAt(s: Store, name: string, rrType: nat, n: string)
    ensures var s' := DeleteFrom(s, name, rrType);
      && (n in s' <==> n in s && (n == name ==> |s[name] - {rrType}| > 0))
      && (n in s' ==> s'[n] == if n == name then s[name] - {rrType} else s[n])
  {
  }

  lemma ProjDelete(lib: Lib, s: Store, name: string, rrType: nat, p: nat)
    ensures Proj(lib, DeleteFrom(s, name, rrType), p)
         == if PageOf(lib, name) == p then DeleteFrom(Proj(lib, s, p), name, rrType) else Proj(lib, s, p)
  {
    var q := Proj(lib, s, p);
    var left := Proj(lib, DeleteFrom(s, name, rrType), p);
    var right := if PageOf(lib, name) == p then DeleteFrom(q, name, rrType) else q;
    forall n: string
      ensures n in left <==> n in right
      ensures n in left ==> left[n] == right[n]
    {
      DeleteAt(s, name, rrType, n);
      DeleteAt(q, name, rrType, n);
    }
  }

  lemma ProjApply(lib: Lib, s: Store, op: Op, p: nat)
    ensures Proj(lib, ApplyOp(lib, s, op), p)
         == if Touches(lib, op, p) then ApplyOp(lib, Proj(lib, s, p), op) else Proj(lib, s, p)
  {
    match op
    case AddRR(str) =>
      if lib.parse(str).Good? {
        ProjInsert(lib, s, lib.parse(str).rr, p);
      }
    case DeleteRR(name, rrType) =>
      ProjDelete(lib, s, name, rrType, p);
  }

  /** The proposals of the log that can affect page `p`, in log order. */
  function PageOps(lib: Lib, log: seq<Entry>, n: nat, p: nat): seq<Op>
    requires n <= |log|
  {
    if n == 0 then []
    else
      var rest := PageOps(lib, log, n - 1, p);
      if log[n - 1].Data? && Touches(lib, log[n - 1].op, p) then rest + [log[n - 1].op] else rest
  }

  function ApplyAll(lib: Lib, s: Store, ops: seq<Op>): Store {
    if ops == [] then s
    else ApplyOp(lib, ApplyAll(lib, s, ops[..|ops| - 1]), ops[|ops| - 1])
  }

  /** Folding the whole log and keeping one page is the same as folding only
      the entries that hash to that page. */
  lemma {:induction false} ProjectionOfFold(lib: Lib, log: seq<Entry>, n: nat, p: nat)
    requires n <= |log|
    ensures Proj(lib, StateAt(lib, log, n), p) == ApplyAll(lib, map[], PageOps(lib, log, n, p))
  {
    if n > 0 {
      ProjectionOfFold(lib, log, n - 1, p);
      if log[n - 1].Data? {
        ProjApply(lib, StateAt(lib, log, n - 1), log[n - 1].op, p);
        var rest := PageOps(lib, log, n - 1, p);
        assert (rest + [log[n - 1].op])[..|rest|] == rest;
      }
    }
  }

  // ----- reading the commit channel -----

  /** The store and the number of messages taken when the commit loop, at message
      `k` of what the channel will carry, returns. `load` tells which snapshot is
      the newest when message `k` is handled. */
  function ReadFlat(lib: Lib, s: Store, msgs: seq<CommitMsg>, k: nat,
                    load: nat -> Option<Store>, isInit: bool): (Store, nat)
    requires k <= |msgs|
    decreases |msgs| - k
  {
    if k == |msgs| then (s, k)
    else
      match msgs[k]
      case Proposal(_, op) => ReadFlat(lib, ApplyOp(lib, s, op), msgs, k + 1, load, isInit)
      case ReplayDone =>
        if isInit || load(k).None? then (s, k + 1)
        else ReadFlat(lib, load(k).value, msgs, k + 1, load, isInit)
  }

  /** The in-memory store as the program has it. */
  class DnsStore {
    const lib: Lib
    var store: Store

    constructor (lib: Lib)
      ensures this.lib == lib && store == map[]
    {
      this.lib := lib;
      store := map[];
    }

    method InsertRR(rr: RR)
      modifies this
      ensures store == InsertInto(lib, old(store), rr)
    {
      var domainName := lib.lower(rr.name);
      var typeMap := if domainName in store then store[domainName] else map[];
      ghost var before := typeMap;
      if rr.rrType !in typeMap {
        typeMap := typeMap[rr.rrType := []];
      }
      typeMap := typeMap[rr.rrType := typeMap[rr.rrType] + [lib.format(rr)]];
      assert typeMap == before[rr.rrType := typeMap[rr.rrType]];
      store := store[domainName := typeMap];
    }

    method DeleteRRs(name: string, rrType: nat)
      modifies this
      ensures store == DeleteFrom(old(store), name, rrType)
    {
      if name in store {
        var typeMap := store[name];
        if rrType in typeMap {
          typeMap := typeMap - {rrType};
        } else {
          assert typeMap - {rrType} == typeMap;
        }
        store := if |typeMap| == 0 then store - {name} else store[name := typeMap];
      }
    }

    method GetSnapshot() returns (snap: Store)
      ensures snap == store
    {
      snap := store;
    }

    method RecoverFromSnapshot(snap: Store)
      modifies this
      ensures store == snap
    {
      store := snap;
    }

    method ReadCommits(msgs: seq<CommitMsg>, latest: Option<Store>, load: nat -> Option<Store>, isInit: bool)
      returns (consumed: nat)
      modifies this
      ensures var start := if isInit && latest.Some? then latest.value else old(store);
        (store, consumed) == ReadFlat(lib, start, msgs, 0, load, isInit)
    {
      if isInit && latest.Some? {
        RecoverFromSnapshot(latest.value);
      }
      ghost var start := store;
      consumed := 0;
      while consumed < |msgs|
        invariant consumed <= |msgs|
        invariant ReadFlat(lib, start, msgs, 0, load, isInit) == ReadFlat(lib, store, msgs, consumed, load, isInit)
      {
        match msgs[consumed] {
          case ReplayDone =>
            if isInit {
              consumed := consumed + 1;
              return;
            }
            var newest := load(consumed);
            if newest.None? {
              consumed := consumed + 1;
              return;
            }
            RecoverFromSnapshot(newest.value);
          case Proposal(_, op) =>
            match op {
              case AddRR(rrString) =>
                var parsed := lib.parse(rrString);
                if parsed.Good? {
                  InsertRR(parsed.rr);
                }
              case DeleteRR(name, rrType) =>
                DeleteRRs(name, rrType);
            }
        }
        consumed := consumed + 1;
      }
    }
  }
}

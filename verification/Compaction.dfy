/** Snapshot and compaction indices for arbitrary thresholds: for which of them
    can the log storage never refuse a compaction? */
module Compaction {
  import opened Records

  /** First index kept by the storage, index of its snapshot, last applied and
      last stored index. */
  datatype Indices = Indices(offset: nat, snapshot: nat, applied: nat, stored: nat)

  /** One turn of the event loop before the snapshot check: new entries are
      applied, or a leader snapshot is installed. */
  datatype Turn = Advance(applied: nat, stored: nat) | Install(index: nat, stored: nat)

  predicate Allowed(s: Indices, t: Turn) {
    match t
    case Advance(applied, stored) => s.applied <= applied <= stored
    case Install(index, stored) => s.applied < index <= stored
  }

  function Take(s: Indices, t: Turn): Indices {
    match t
    case Advance(applied, stored) => s.(applied := applied, stored := stored)
    case Install(index, stored) => Indices(index, index, index, stored)
  }

  /** The snapshot check; `None` when the storage refuses, which the program
      turns into a panic. */
  function Trigger(snapCount: nat, catchUp: nat, s: Indices): Option<Indices> {
    if s.applied - s.snapshot <= snapCount then Some(s)
    else if s.applied <= s.snapshot || s.applied > s.stored then None
    else
      var compact := if s.applied > catchUp then s.applied - catchUp else 1;
      if compact <= s.offset || compact > s.stored then None
      else Some(s.(offset := compact, snapshot := s.applied))
  }

  function Turns(snapCount: nat, catchUp: nat, s: Indices, turns: seq<Turn>): Option<Indices> {
    if turns == [] then Some(s)
    else
      var n := |turns| - 1;
      match Turns(snapCount, catchUp, s, turns[..n])
      case None => None
      case Some(s') =>
        if Allowed(s', turns[n]) then Trigger(snapCount, catchUp, Take(s', turns[n])) else Some(s')
  }

  predicate Ordered(s: Indices) {
    s.offset <= s.snapshot <= s.applied <= s.stored
  }

  lemma {:induction false} TurnsOrdered(snapCount: nat, catchUp: nat, s: Indices, turns: seq<Turn>)
    requires catchUp <= snapCount && Ordered(s)
    ensures var r := Turns(snapCount, catchUp, s, turns);
      r.Some? && Ordered(r.value)
  {
    if turns != [] {
      TurnsOrdered(snapCount, catchUp, s, turns[..|turns| - 1]);
    }
  }

  ghost predicate NeverPanics(snapCount: nat, catchUp: nat) {
    forall s, turns | Ordered(s) :: Turns(snapCount, catchUp, s, turns).Some?
  }

  /** A leader snapshot at `catchUp`, then one entry more than `snapCount`: the
      compaction index falls on or below the storage offset. */
  lemma ShortSnapshotsPanic(snapCount: nat, catchUp: nat)
    requires snapCount < catchUp
    ensures var last := catchUp + snapCount + 1;
      Turns(snapCount, catchUp, Indices(0, 0, 0, 0), [Install(catchUp, last), Advance(last, last)]) == None
  {
    var last := catchUp + snapCount + 1;
    var t0, t1 := Install(catchUp, last), Advance(last, last);
    assert [t0, t1][..1] == [t0];
    assert [t0][..0] == [];
    assert Turns(snapCount, catchUp, Indices(0, 0, 0, 0), [t0]) == Some(Indices(catchUp, catchUp, catchUp, last));
  }

  /** Compaction is never refused exactly when snapshots are at least as far
      apart as the entries kept for slow followers. */
  lemma NeverPanicsIff(snapCount: nat, catchUp: nat)
    ensures NeverPanics(snapCount, catchUp) <==> catchUp <= snapCount
  {
    if catchUp <= snapCount {
      forall s, turns | Ordered(s)
        ensures Turns(snapCount, catchUp, s, turns).Some?
      {
        TurnsOrdered(snapCount, catchUp, s, turns);
      }
    } else {
      ShortSnapshotsPanic(snapCount, catchUp);
      assert Ordered(Indices(0, 0, 0, 0));
    }
  }
}

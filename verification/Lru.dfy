/** The replacement policy of the page store on its own: which page numbers are
    resident, and in which order, after a trace of page accesses. */
module Lru {

  ghost predicate NoDup<T>(l: seq<T>) {
    forall i, j | 0 <= i < j < |l| :: l[i] != l[j]
  }

  /** The list without `k`. */
  function Without<T(==)>(l: seq<T>, k: T): (r: seq<T>)
    ensures forall x | x in l :: x != k ==> x in r
    ensures forall x | x in r :: x in l && x != k
    ensures NoDup(l) ==> NoDup(r) && |r| == |l| - (if k in l then 1 else 0)
  {
    if l == [] then []
    else
      var n := |l| - 1;
      assert l == l[..n] + [l[n]];
      assert NoDup(l) ==> NoDup(l[..n]) && l[n] !in l[..n];
      var r := Without(l[..n], k);
      assert l[n] !in l[..n] ==> l[n] !in r;
      if l[n] == k then r else r + [l[n]]
  }

  /** One access to `k`: a hit moves it to the back; a miss appends it and, when
      the list grows beyond `cap`, drops the front. */
  function Access<T(==)>(cap: nat, l: seq<T>, k: T): (r: seq<T>)
  {
    if k in l then Without(l, k) + [k]
    else if |l| + 1 > cap then (l + [k])[1..]
    else l + [k]
  }

  function ResidentFrom<T(==)>(cap: nat, l: seq<T>, trace: seq<T>): seq<T> {
    if trace == [] then l
    else
      var n := |trace| - 1;
      Access(cap, ResidentFrom(cap, l, trace[..n]), trace[n])
  }

  /** All distinct keys of a trace, the most recently used last. */
  function Recency<T(==)>(trace: seq<T>): (r: seq<T>)
    ensures NoDup(r)
    ensures forall x | x in trace :: x in r
    ensures forall x | x in r :: x in trace
  {
    if trace == [] then []
    else
      var n := |trace| - 1;
      assert trace == trace[..n] + [trace[n]];
      Without(Recency(trace[..n]), trace[n]) + [trace[n]]
  }

  function Suffix<T>(l: seq<T>, n: nat): seq<T> {
    if |l| <= n then l else l[|l| - n..]
  }

  /** Position of the last access to `x`. */
  function LastUse<T(==)>(trace: seq<T>, x: T): (i: nat)
    requires x in trace
    ensures i < |trace| && trace[i] == x
    ensures forall j | i < j < |trace| :: trace[j] != x
  {
    var n := |trace| - 1;
    if trace[n] == x then n
    else
      assert trace == trace[..n] + [trace[n]];
      LastUse(trace[..n], x)
  }

  lemma {:induction false} WithoutConcat<T>(a: seq<T>, b: seq<T>, k: T)
    ensures Without(a + b, k) == Without(a, k) + Without(b, k)
  {
    if b == [] {
      assert a + b == a;
    } else {
      var n := |b| - 1;
      assert (a + b)[..|a + b| - 1] == a + b[..n];
      WithoutConcat(a, b[..n], k);
    }
  }

  lemma {:induction false} WithoutAbsent<T>(l: seq<T>, k: T)
    requires k !in l
    ensures Without(l, k) == l
  {
    if l != [] {
      WithoutAbsent(l[..|l| - 1], k);
    }
  }

  lemma AccessHit<T>(cap: nat, pre: seq<T>, s: seq<T>, k: T)
    requires |s| == cap && k in s && k !in pre && NoDup(s)
    ensures Access(cap, s, k) == Suffix(Without(pre + s, k) + [k], cap)
  {
    WithoutConcat(pre, s, k);
    WithoutAbsent(pre, k);
    SuffixConcat(pre, Without(s, k) + [k]);
    assert pre + (Without(s, k) + [k]) == Without(pre + s, k) + [k];
  }

  lemma AccessMiss<T>(cap: nat, pre: seq<T>, s: seq<T>, k: T)
    requires cap >= 1 && |s| == cap && k !in s
    ensures Access(cap, s, k) == Suffix(Without(pre + s, k) + [k], cap)
  {
    WithoutConcat(pre, s, k);
    WithoutAbsent(s, k);
    SuffixShift(Without(pre, k), s, k);
  }

  lemma SuffixShift<T>(a: seq<T>, s: seq<T>, k: T)
    requires |s| >= 1
    ensures Suffix(a + s + [k], |s|) == (s + [k])[1..]
  {
  }

  lemma DisjointParts<T>(a: seq<T>, b: seq<T>, k: T)
    requires NoDup(a + b) && k in b
    ensures k !in a && NoDup(b)
  {
    var j :| 0 <= j < |b| && b[j] == k;
    assert (a + b)[|a| + j] == k;
    assert forall i | 0 <= i < |a| :: (a + b)[i] == a[i];
    assert forall i | 0 <= i < |b| :: (a + b)[|a| + i] == b[i];
  }

  lemma AccessSuffix<T>(cap: nat, l: seq<T>, k: T)
    requires cap >= 1 && NoDup(l)
    ensures Access(cap, Suffix(l, cap), k) == Suffix(Without(l, k) + [k], cap)
  {
    hide Without;
    if |l| > cap {
      var pre, s := l[..|l| - cap], l[|l| - cap..];
      assert l == pre + s;
      if k in s {
        hide Access, Suffix;
        DisjointParts(pre, s, k);
        AccessHit(cap, pre, s, k);
      } else {
        hide Access, Suffix;
        AccessMiss(cap, pre, s, k);
      }
    } else if k !in l {
      WithoutAbsent(l, k);
    } else {
      WithoutLength(l, k);
    }
  }

  lemma WithoutLength<T>(l: seq<T>, k: T)
    requires NoDup(l) && k in l
    ensures |Without(l, k)| == |l| - 1
  {
  }

  lemma SuffixConcat<T>(a: seq<T>, b: seq<T>)
    ensures Suffix(a + b, |b|) == b
  {
  }

  /** Residency: the list always holds the last `cap` distinct keys of the
      trace, least recently used first. */
  lemma {:induction false} Residency<T>(cap: nat, trace: seq<T>)
    requires cap >= 1
    ensures ResidentFrom(cap, [], trace) == Suffix(Recency(trace), cap)
  {
    if trace != [] {
      var n := |trace| - 1;
      Residency(cap, trace[..n]);
      AccessSuffix(cap, Recency(trace[..n]), trace[n]);
    }
  }

  lemma LastUseExtend<T>(t: seq<T>, k: T, x: T)
    requires x in t && x != k
    ensures x in t + [k] && LastUse(t + [k], x) == LastUse(t, x)
  {
    assert (t + [k])[..|t|] == t;
  }

  /** `Recency` is what it says: ordered by last use. */
  lemma {:induction false} RecencyOrder<T>(trace: seq<T>, i: nat, j: nat)
    requires i < j < |Recency(trace)|
    ensures LastUse(trace, Recency(trace)[i]) < LastUse(trace, Recency(trace)[j])
  {
    var n := |trace| - 1;
    var t, k := trace[..n], trace[n];
    assert trace == t + [k];
    var w := Without(Recency(t), k);
    assert w[i] in w;
    LastUseExtend(t, k, w[i]);
    if j < |w| {
      assert w[j] in w;
      LastUseExtend(t, k, w[j]);
      var a, b := WithoutIndices(Recency(t), k, i, j);
      RecencyOrder(t, a, b);
    }
  }

  lemma {:induction false} WithoutIndices<T>(l: seq<T>, k: T, i: nat, j: nat) returns (a: nat, b: nat)
    requires i < j < |Without(l, k)|
    ensures a < b < |l| && l[a] == Without(l, k)[i] && l[b] == Without(l, k)[j]
  {
    var n := |l| - 1;
    var w := Without(l[..n], k);
    if j < |w| {
      a, b := WithoutIndices(l[..n], k, i, j);
    } else {
      b := n;
      assert w[i] in w;
      assert w[i] in l[..n];
      a :| 0 <= a < n && l[..n][a] == w[i];
    }
  }

  /** A page dropped by a miss is the least recently used resident. */
  lemma EvictsLeastRecent<T>(cap: nat, trace: seq<T>, k: T, i: nat)
    requires cap >= 1
    requires var l := ResidentFrom(cap, [], trace); k !in l && |l| == cap && 0 < i < |l|
    ensures var l := ResidentFrom(cap, [], trace);
      && l[0] !in Access(cap, l, k)
      && l[0] in trace && l[i] in trace
      && LastUse(trace, l[0]) < LastUse(trace, l[i])
  {
    hide ResidentFrom, Recency, LastUse;
    Residency(cap, trace);
    var r := Recency(trace);
    SuffixAt(r, cap, 0);
    SuffixAt(r, cap, i);
    FrontDropped(cap, r, k);
    RecencyOrder(trace, |r| - cap, |r| - cap + i);
  }

  lemma SuffixAt<T>(r: seq<T>, cap: nat, i: nat)
    requires |Suffix(r, cap)| == cap && i < cap
    ensures cap <= |r| && Suffix(r, cap)[i] == r[|r| - cap + i] && r[|r| - cap + i] in r
  {
  }

  lemma FrontDropped<T>(cap: nat, r: seq<T>, k: T)
    requires NoDup(r) && |Suffix(r, cap)| == cap >= 1 && k !in Suffix(r, cap)
    ensures Suffix(r, cap)[0] !in Access(cap, Suffix(r, cap), k)
  {
    var l, l' := Suffix(r, cap), Access(cap, Suffix(r, cap), k);
    assert l' == l[1..] + [k];
    forall q | 0 <= q < |l'|
      ensures l'[q] != l[0]
    {
      assert l[0] == r[|r| - cap] && l[0] in l;
      assert q < |l| - 1 ==> l'[q] == l[q + 1] == r[|r| - cap + q + 1];
    }
  }

  /** A smaller cache always holds a suffix of what a larger one holds. */
  lemma Inclusion<T>(small: nat, large: nat, trace: seq<T>)
    requires 1 <= small <= large
    ensures ResidentFrom(small, [], trace) == Suffix(ResidentFrom(large, [], trace), small)
  {
    Residency(small, trace);
    Residency(large, trace);
    SuffixSuffix(Recency(trace), small, large);
  }

  lemma SuffixSuffix<T>(l: seq<T>, a: nat, b: nat)
    requires a <= b
    ensures Suffix(Suffix(l, b), a) == Suffix(l, a)
  {
  }

  lemma {:induction false} FillsUp<T>(cap: nat, l: seq<T>)
    requires NoDup(l) && |l| <= cap
    ensures ResidentFrom(cap, [], l) == l
  {
    if l != [] {
      var n := |l| - 1;
      assert l == l[..n] + [l[n]];
      FillsUp(cap, l[..n]);
    }
  }

  lemma {:induction false} ResidentConcat<T>(cap: nat, l: seq<T>, a: seq<T>, b: seq<T>)
    ensures ResidentFrom(cap, l, a + b) == ResidentFrom(cap, ResidentFrom(cap, l, a), b)
  {
    if b == [] {
      assert a + b == a;
    } else {
      var n := |b| - 1;
      assert (a + b)[..|a + b| - 1] == a + b[..n];
      ResidentConcat(cap, l, a, b[..n]);
    }
  }

  /** The same from any list a recovery may start with: it behaves as if its
      elements had just been accessed in order. */
  lemma ResidencyFrom<T>(cap: nat, l: seq<T>, trace: seq<T>)
    requires cap >= 1 && NoDup(l) && |l| <= cap
    ensures ResidentFrom(cap, l, trace) == Suffix(Recency(l + trace), cap)
  {
    FillsUp(cap, l);
    ResidentConcat(cap, [], l, trace);
    Residency(cap, l + trace);
  }
}

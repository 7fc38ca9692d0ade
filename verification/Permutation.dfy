/** Sequences that list the same things in different orders. */
module Permutation {
  import opened Lru

  function Map<A, B>(f: A -> B, s: seq<A>): (r: seq<B>)
    ensures |r| == |s|
    ensures forall i | 0 <= i < |s| :: r[i] == f(s[i])
  {
    seq(|s|, i requires 0 <= i < |s| => f(s[i]))
  }

  lemma WithoutPosition<T>(t: seq<T>, k: nat)
    requires k < |t|
    ensures multiset(t) == multiset(t[..k] + t[k + 1..]) + multiset{t[k]}
  {
    assert t == t[..k] + ([t[k]] + t[k + 1..]);
  }

  lemma {:induction false} MapPermutation<A, B>(f: A -> B, s: seq<A>, t: seq<A>)
    requires multiset(s) == multiset(t)
    ensures multiset(Map(f, s)) == multiset(Map(f, t))
  {
    if s == [] {
      assert |multiset(t)| == 0;
    } else {
      var n := |s| - 1;
      assert s[n] in multiset(t);
      var k :| 0 <= k < |t| && t[k] == s[n];
      WithoutPosition(s, n);
      WithoutPosition(t, k);
      assert s[..n] + s[n + 1..] == s[..n];
      assert multiset(s[..n]) == multiset(s) - multiset{s[n]};
      assert multiset(t[..k] + t[k + 1..]) == multiset(t) - multiset{t[k]};
      MapPermutation(f, s[..n], t[..k] + t[k + 1..]);
      MapWithout(f, s, n);
      MapWithout(f, t, k);
    }
  }

  lemma MapWithout<A, B>(f: A -> B, t: seq<A>, k: nat)
    requires k < |t|
    ensures multiset(Map(f, t)) == multiset(Map(f, t[..k] + t[k + 1..])) + multiset{f(t[k])}
  {
    var m := Map(f, t);
    WithoutPosition(m, k);
    assert Map(f, t[..k] + t[k + 1..]) == m[..k] + m[k + 1..];
  }

  function Join<A, B>(f: A -> seq<B>, s: seq<A>): seq<B> {
    if s == [] then [] else Join(f, s[..|s| - 1]) + f(s[|s| - 1])
  }

  lemma {:induction false} JoinConcat<A, B>(f: A -> seq<B>, s: seq<A>, t: seq<A>)
    ensures Join(f, s + t) == Join(f, s) + Join(f, t)
  {
    if t == [] {
      assert s + t == s;
    } else {
      var n := |t| - 1;
      assert (s + t)[..|s| + n] == s + t[..n];
      JoinConcat(f, s, t[..n]);
    }
  }

  lemma JoinWithout<A, B>(f: A -> seq<B>, t: seq<A>, k: nat)
    requires k < |t|
    ensures multiset(Join(f, t)) == multiset(Join(f, t[..k] + t[k + 1..])) + multiset(f(t[k]))
  {
    hide Join;
    var a, b := t[..k], t[k + 1..];
    assert t == a + ([t[k]] + b);
    JoinConcat(f, a, [t[k]] + b);
    JoinConcat(f, [t[k]], b);
    JoinConcat(f, a, b);
    JoinOne(f, t[k]);
  }

  lemma JoinOne<A, B>(f: A -> seq<B>, x: A)
    ensures Join(f, [x]) == f(x)
  {
    assert [x][..0] == [];
  }

  /** Joining parts in another order gives the same things. */
  lemma {:induction false} JoinPermutation<A, B>(f: A -> seq<B>, s: seq<A>, t: seq<A>)
    requires multiset(s) == multiset(t)
    ensures multiset(Join(f, s)) == multiset(Join(f, t))
  {
    if s == [] {
      assert |multiset(t)| == 0;
    } else {
      var n := |s| - 1;
      assert s[n] in multiset(t);
      var k :| 0 <= k < |t| && t[k] == s[n];
      WithoutPosition(s, n);
      WithoutPosition(t, k);
      assert s[..n] + s[n + 1..] == s[..n];
      assert multiset(s[..n]) == multiset(s) - multiset{s[n]};
      assert multiset(t[..k] + t[k + 1..]) == multiset(t) - multiset{t[k]};
      JoinPermutation(f, s[..n], t[..k] + t[k + 1..]);
      JoinWithout(f, s, n);
      JoinWithout(f, t, k);
    }
  }

  lemma {:induction false} JoinMember<A, B>(f: A -> seq<B>, s: seq<A>, a: A, x: B)
    requires a in s && x in f(a)
    ensures x in Join(f, s)
  {
    var n := |s| - 1;
    assert s == s[..n] + [s[n]];
    if a != s[n] {
      JoinMember(f, s[..n], a, x);
    }
  }

  /** Lists without duplicates and with the same elements are permutations. */
  lemma {:induction false} SameElements<T>(s: seq<T>, t: seq<T>)
    requires NoDup(s) && NoDup(t)
    requires (forall x | x in s :: x in t) && forall x | x in t :: x in s
    ensures multiset(s) == multiset(t)
  {
    CountOnce(s);
    CountOnce(t);
  }

  lemma {:induction false} CountOnce<T>(s: seq<T>)
    requires NoDup(s)
    ensures forall x | x in s :: multiset(s)[x] == 1
  {
    if s != [] {
      var n := |s| - 1;
      assert s == s[..n] + [s[n]];
      CountOnce(s[..n]);
    }
  }
}

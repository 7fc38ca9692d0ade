/** Following one outgoing edge per name, as the CNAME chase does: when it ends,
    how far it goes, and what a cycle looks like. */
module Chase {
  import opened Records

  type Edges = map<string, string>

  /** The name after `i` steps. */
  function Walk(g: Edges, name: string, i: nat): Option<string>
    decreases i
  {
    if i == 0 then Some(name)
    else if name !in g then None
    else Walk(g, g[name], i - 1)
  }

  /** The chase stops after exactly `n` steps. */
  predicate EndsAfter(g: Edges, name: string, n: nat) {
    var x := Walk(g, name, n);
    x.Some? && x.value !in g
  }

  ghost predicate Ends(g: Edges, name: string) {
    exists n: nat :: EndsAfter(g, name, n)
  }

  ghost function ChaseLength(g: Edges, name: string): (n: nat)
    requires Ends(g, name)
    ensures EndsAfter(g, name, n)
  {
    var n: nat :| EndsAfter(g, name, n);
    n
  }

  lemma {:induction false} WalkStops(g: Edges, name: string, n: nat, j: nat)
    requires EndsAfter(g, name, n) && n < j
    ensures Walk(g, name, j).None?
    decreases n
  {
    if n > 0 {
      WalkStops(g, g[name], n - 1, j - 1);
    }
  }

  lemma EndsOnce(g: Edges, name: string, m: nat, n: nat)
    requires EndsAfter(g, name, m) && EndsAfter(g, name, n)
    ensures m == n
  {
    if m < n {
      WalkStops(g, name, m, n);
    } else if n < m {
      WalkStops(g, name, n, m);
    }
  }

  lemma ChaseStep(g: Edges, name: string)
    requires Ends(g, name) && name in g
    ensures Ends(g, g[name])
    ensures ChaseLength(g, name) == ChaseLength(g, g[name]) + 1
  {
    var n := ChaseLength(g, name);
    assert EndsAfter(g, g[name], n - 1);
    EndsOnce(g, g[name], n - 1, ChaseLength(g, g[name]));
  }

  /** Walking on from the `i`-th name. */
  lemma {:induction false} WalkFrom(g: Edges, name: string, i: nat, j: nat)
    requires Walk(g, name, i).Some?
    ensures Walk(g, name, i + j) == Walk(g, Walk(g, name, i).value, j)
    decreases i
  {
    if i > 0 {
      WalkFrom(g, g[name], i - 1, j);
    }
  }

  /** The names a walk has left behind after `j` steps. */
  ghost function Visited(g: Edges, name: string, j: nat): (r: seq<string>)
    requires Walk(g, name, j).Some?
    ensures |r| == j
    ensures forall i | 0 <= i < j :: r[i] in g && Walk(g, name, i) == Some(r[i])
    decreases j
  {
    if j == 0 then []
    else
      var rest := Visited(g, g[name], j - 1);
      assert forall i | 0 < i < j :: Walk(g, name, i) == Walk(g, g[name], i - 1);
      [name] + rest
  }

  /** More positions than values: two of them agree. */
  lemma {:induction false} Pigeonhole(l: seq<string>, values: set<string>) returns (i: nat, j: nat)
    requires |l| > |values| && forall x | x in l :: x in values
    ensures i < j < |l| && l[i] == l[j]
    decreases |l|
  {
    var n := |l| - 1;
    if k :| 0 <= k < n && l[k] == l[n] {
      return k, n;
    }
    assert forall x | x in l[..n] :: x in values - {l[n]};
    i, j := Pigeonhole(l[..n], values - {l[n]});
  }

  ghost predicate Repeats(g: Edges, name: string, i: nat, j: nat) {
    Walk(g, name, i).Some? && Walk(g, name, i) == Walk(g, name, j)
  }

  lemma NoRepeat(g: Edges, name: string, n: nat, i: nat, j: nat)
    requires EndsAfter(g, name, n) && i < j
    ensures !Repeats(g, name, i, j)
  {
    if Repeats(g, name, i, j) {
      if j > n {
        WalkStops(g, name, n, j);
      } else {
        var x := Walk(g, name, i).value;
        WalkFrom(g, name, i, n - i);
        WalkFrom(g, name, j, n - j);
        EndsOnce(g, x, n - i, n - j);
      }
    }
  }

  lemma {:induction false} AlwaysOn(g: Edges, name: string, j: nat)
    requires !Ends(g, name)
    ensures Walk(g, name, j).Some?
    decreases j
  {
    if j > 0 {
      assert !EndsAfter(g, name, 0);
      if Ends(g, g[name]) {
        assert EndsAfter(g, name, ChaseLength(g, g[name]) + 1);
      }
      AlwaysOn(g, g[name], j - 1);
    }
  }

  lemma ShortChase(g: Edges, name: string, n: nat)
    requires EndsAfter(g, name, n)
    ensures n <= |g|
  {
    var l := Visited(g, name, n);
    if n > |g| {
      var i, j := Pigeonhole(l, g.Keys);
      assert Repeats(g, name, i, j);
      NoRepeat(g, name, n, i, j);
    }
  }

  /** The chase ends if and only if no name comes up twice within as many steps
      as there are edges, and it then takes no more steps than that. */
  lemma ChaseEndsIff(g: Edges, name: string)
    ensures Ends(g, name) <==> exists n: nat :: n <= |g| && EndsAfter(g, name, n)
    ensures !Ends(g, name) <==> exists i: nat, j: nat :: i < j <= |g| && Repeats(g, name, i, j)
  {
    if Ends(g, name) {
      var n := ChaseLength(g, name);
      forall i: nat, j: nat | i < j
        ensures !Repeats(g, name, i, j)
      {
        NoRepeat(g, name, n, i, j);
      }
      ShortChase(g, name, n);
    } else {
      AlwaysOn(g, name, |g| + 1);
      var l := Visited(g, name, |g| + 1);
      var i, j := Pigeonhole(l, g.Keys);
      assert Repeats(g, name, i, j);
    }
  }

  /** A CNAME to itself is enough for the program not to return. */
  lemma SelfLoopNeverEnds(g: Edges, name: string)
    requires name in g && g[name] == name
    ensures !Ends(g, name)
  {
    assert |g| >= 1 by {
      assert g.Keys != {};
    }
    assert Walk(g, name, 1) == Walk(g, name, 0);
    assert Repeats(g, name, 0, 1);
    ChaseEndsIff(g, name);
  }
}

/** Paths along `matches`, the connectivity that communities are made of. */
module Reach {
  import opened SocialGraph

  /** A non-empty walk through vertices of `g`, each step from a user to one of its matches. */
  ghost predicate IsPath(g: Network, p: seq<int>) {
    |p| > 0 &&
    (forall i :: 0 <= i < |p| ==> p[i] in g.users) &&
    (forall i :: 0 <= i < |p| - 1 ==> p[i + 1] in g.users[p[i]].matches)
  }

  /** No vertex of the walk is in `avoid`. */
  ghost predicate Avoids(p: seq<int>, avoid: set<int>) {
    forall i :: 0 <= i < |p| ==> p[i] !in avoid
  }

  /** `w` can be reached from `v` along matches without passing through `avoid`. */
  ghost predicate Reaches(g: Network, avoid: set<int>, v: int, w: int) {
    exists p :: IsPath(g, p) && p[0] == v && p[|p| - 1] == w && Avoids(p, avoid)
  }

  /** The connected component of `v`: everything reachable from it. */
  ghost predicate Connected(g: Network, v: int, w: int) {
    Reaches(g, {}, v, w)
  }

  lemma ReachesSelf(g: Network, avoid: set<int>, v: int)
    requires v in g.users && v !in avoid
    ensures Reaches(g, avoid, v, v)
  {
    assert IsPath(g, [v]);
  }

  /** A step from `v` to a match `n` extends any walk from `n` that also avoids `v`'s forbidden set. */
  lemma ReachesPrepend(g: Network, avoid: set<int>, wider: set<int>, v: int, n: int, w: int)
    requires avoid <= wider && v in g.users && v !in avoid && n in g.users[v].matches
    requires Reaches(g, wider, n, w)
    ensures Reaches(g, avoid, v, w)
  {
    var p :| IsPath(g, p) && p[0] == n && p[|p| - 1] == w && Avoids(p, wider);
    var q := [v] + p;
    assert forall i :: 1 <= i < |q| ==> q[i] == p[i - 1];
    assert IsPath(g, q);
    assert Avoids(q, avoid);
  }

  /** Avoiding fewer vertices never loses reachability. */
  lemma ReachesWiden(g: Network, avoid: set<int>, wider: set<int>, v: int, w: int)
    requires avoid <= wider && Reaches(g, wider, v, w)
    ensures Reaches(g, avoid, v, w)
  {
  }

  /** Walks compose. */
  lemma ReachesTrans(g: Network, v: int, x: int, w: int)
    requires Connected(g, v, x) && Connected(g, x, w)
    ensures Connected(g, v, w)
  {
    var p :| IsPath(g, p) && p[0] == v && p[|p| - 1] == x && Avoids(p, {});
    var q :| IsPath(g, q) && q[0] == x && q[|q| - 1] == w && Avoids(q, {});
    var r := p + q[1..];
    assert forall i :: |p| <= i < |r| ==> r[i] == q[i - |p| + 1];
    assert IsPath(g, r);
    assert Avoids(r, {});
  }

  /** With mutual matches, a walk can be retraced backwards. */
  lemma ReachesSym(g: Network, v: int, w: int)
    requires MatchesSymmetric(g) && Connected(g, v, w)
    ensures Connected(g, w, v)
  {
    var p :| IsPath(g, p) && p[0] == v && p[|p| - 1] == w && Avoids(p, {});
    var r := seq(|p|, i requires 0 <= i < |p| => p[|p| - 1 - i]);
    forall i | 0 <= i < |r| - 1
      ensures r[i + 1] in g.users[r[i]].matches
    {
      var k := |p| - 2 - i;
      assert r[i] == p[k + 1] && r[i + 1] == p[k];
      assert p[k + 1] in g.users[p[k]].matches;
    }
    assert IsPath(g, r);
    assert Avoids(r, {});
  }

  /** Every match of a member of `s` lies in `s` or in `avoid`. */
  ghost predicate MatchClosed(g: Network, s: set<int>, avoid: set<int>) {
    forall x :: x in s ==> x in g.users && g.users[x].matches <= s + avoid
  }

  lemma MatchClosedAt(g: Network, s: set<int>, avoid: set<int>, x: int)
    requires MatchClosed(g, s, avoid) && x in s
    ensures x in g.users && forall y :: y in g.users[x].matches ==> y in s || y in avoid
  {
  }

  /**
   * If `s` holds `v`, avoids `avoid`, and every match of a member of `s` lies in `s` or in
   * `avoid`, then everything reachable from `v` without entering `avoid` is in `s`.
   */
  lemma ClosedSetHoldsReach(g: Network, avoid: set<int>, s: set<int>, v: int, w: int)
    requires v in s && MatchClosed(g, s, avoid)
    requires Reaches(g, avoid, v, w)
    ensures w in s
  {
    var p :| IsPath(g, p) && p[0] == v && p[|p| - 1] == w && Avoids(p, avoid);
    var k := 0;
    while k < |p| - 1
      invariant 0 <= k < |p| && p[k] in s
    {
      assert p[k + 1] in g.users[p[k]].matches && p[k + 1] !in avoid;
      MatchClosedAt(g, s, avoid, p[k]);
      k := k + 1;
    }
  }
}

/**
 * `_User.find_all_connected_matches` and `Network.find_connected_communities`: depth-first
 * search along matches. The order in which Python iterates a set or a dict is not modelled;
 * each loop picks its next element arbitrarily, so every property below holds for every order.
 */
module Traversal {
  import opened Lists
  import opened SocialGraph
  import opened Reach

  /**
   * The search from `v` that skips the ids in `visited`: the ids it has now seen, and the users
   * it collected, `v` first. They are exactly the users reachable from `v` without passing
   * through `visited`, each once.
   */
  method ConnectedMatches(g: Network, v: int, visited: set<int>) returns (seen: set<int>, members: seq<int>)
    requires Valid(g) && v in g.users && v !in visited
    ensures |members| > 0 && members[0] == v && Distinct(members)
    ensures seen == visited + Elems(members) && Elems(members) !! visited
    ensures MatchClosed(g, Elems(members), visited)
    ensures forall w :: w in members <==> Reaches(g, visited, v, w)
    decreases g.users.Keys - visited
  {
    seen := visited + {v};
    members := [v];
    ReachesSelf(g, visited, v);
    var todo := g.users[v].matches;
    while todo != {}
      invariant todo <= g.users[v].matches
      invariant |members| > 0 && members[0] == v && Distinct(members)
      invariant seen == visited + Elems(members) && Elems(members) !! visited
      invariant Elems(members) <= g.users.Keys
      invariant g.users[v].matches - todo <= seen
      invariant forall x :: x in Elems(members) && x != v ==> g.users[x].matches <= seen
      invariant forall w :: w in members ==> Reaches(g, visited, v, w)
      decreases todo
    {
      var n := Pick(todo);
      if n !in seen {
        var s, r := ConnectedMatches(g, n, seen);
        forall w | w in r
          ensures Reaches(g, visited, v, w)
        {
          ReachesPrepend(g, visited, seen, v, n, w);
        }
        forall x | x in Elems(r)
          ensures g.users[x].matches <= s
        {
          MatchClosedAt(g, Elems(r), seen, x);
        }
        DistinctConcat(members, r);
        ElemsConcat(members, r);
        members := members + r;
        seen := seen + s;
      }
      todo := todo - {n};
    }
    forall w | Reaches(g, visited, v, w)
      ensures w in members
    {
      ClosedSetHoldsReach(g, visited, Elems(members), v, w);
    }
  }

  /**
   * A non-empty set has an element. Splitting on the negation lets the solver apply set
   * extensionality, which it does not do unprompted.
   */
  lemma NonEmptyWitness(s: set<int>)
    requires s != {}
    ensures exists y :: y in s
  {
    if forall y :: y !in s {
    }
  }

  /** Some element of a non-empty set; which one is left open, as Python's iteration order is. */
  method Pick(s: set<int>) returns (x: int)
    requires s != {}
    ensures x in s
  {
    NonEmptyWitness(s);
    x :| x in s;
  }

  /** Each list is non-empty, duplicate-free, and exactly the component of its head; no two overlap. */
  ghost predicate AreCommunities(g: Network, cs: seq<seq<int>>) {
    (forall i :: 0 <= i < |cs| ==> |cs[i]| > 0 && Distinct(cs[i])) &&
    (forall i, w :: 0 <= i < |cs| ==> (w in cs[i] <==> Connected(g, cs[i][0], w))) &&
    (forall i, j, w :: 0 <= i < j < |cs| && w in cs[i] ==> w !in cs[j])
  }

  /** `ids` is the set of ids the lists hold. */
  ghost predicate Covers(cs: seq<seq<int>>, ids: set<int>) {
    forall w :: w in ids <==> exists i :: 0 <= i < |cs| && w in cs[i]
  }

  /**
   * A new search that starts outside every community found so far yields a community disjoint
   * from all of them: with mutual matches, overlapping would put its start inside one of them.
   */
  lemma AddCommunity(g: Network, cs: seq<seq<int>>, visited: set<int>, id: int, m: seq<int>)
    requires MatchesSymmetric(g) && id !in visited
    requires AreCommunities(g, cs) && Covers(cs, visited)
    requires |m| > 0 && m[0] == id && Distinct(m)
    requires forall w :: w in m <==> Connected(g, id, w)
    ensures AreCommunities(g, cs + [m]) && Covers(cs + [m], visited + Elems(m))
  {
    forall i, w | 0 <= i < |cs| && w in m
      ensures w !in cs[i]
    {
      if w in cs[i] {
        ReachesSym(g, id, w);
        ReachesTrans(g, cs[i][0], w, id);
      }
    }
    var cs' := cs + [m];
    assert cs'[|cs|] == m;
    forall w | w in visited + Elems(m)
      ensures exists i :: 0 <= i < |cs'| && w in cs'[i]
    {
      if w !in visited {
        assert w in cs'[|cs|];
      } else {
        var i :| 0 <= i < |cs| && w in cs[i];
        assert cs'[i] == cs[i];
      }
    }
  }

  /**
   * `find_connected_communities`: one list per connected component of the match graph, each
   * headed by the id that started it and holding exactly that component, each id once. The
   * components are pairwise disjoint and together hold every user.
   */
  method FindConnectedCommunities(g: Network) returns (communities: seq<seq<int>>)
    requires Valid(g)
    ensures forall i :: 0 <= i < |communities| ==> |communities[i]| > 0 && Distinct(communities[i])
    ensures forall i, w :: 0 <= i < |communities| ==>
              (w in communities[i] <==> Connected(g, communities[i][0], w))
    ensures forall i, j, w :: 0 <= i < j < |communities| && w in communities[i] ==> w !in communities[j]
    ensures forall w :: w in g.users <==> exists i :: 0 <= i < |communities| && w in communities[i]
  {
    communities := [];
    var visited: set<int> := {};
    var todo := g.users.Keys;
    while todo != {}
      invariant todo <= g.users.Keys
      invariant g.users.Keys - todo <= visited <= g.users.Keys
      invariant AreCommunities(g, communities) && Covers(communities, visited)
      decreases todo
    {
      var id := Pick(todo);
      if id !in visited {
        var s, m := ConnectedMatches(g, id, {});
        AddCommunity(g, communities, visited, id, m);
        communities := communities + [m];
        visited := visited + s;
      }
      todo := todo - {id};
    }
    assert visited == g.users.Keys;
  }
}

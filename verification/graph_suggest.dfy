/**
 * `Network.find_new_suggestion`: triadic closure over matches. Every user that two different
 * matches of `u` are both matched with, other than `u`, becomes a suggestion of `u` (and `u` one
 * of theirs). Sets are iterated in an arbitrary order; the outcome does not depend on it.
 */
module TriadicClosure {
  import opened Users
  import opened SocialGraph
  import opened GraphLaws
  import opened Traversal

  /** The users, other than `u`, matched with some `m1` of `a` and some different `m2` of `b`. */
  ghost function Commons(g: Network, u: int, a: set<int>, b: set<int>): set<int> {
    set c | c in g.users.Keys && c != u &&
      exists m1, m2 :: m1 in a && m2 in b && m1 != m2 && c in MatchesOf(g, m1) && c in MatchesOf(g, m2)
  }

  /** What triadic closure suggests to `u`: users two different matches of `u` share. */
  ghost function Triadic(g: Network, u: int): set<int> {
    Commons(g, u, MatchesOf(g, u), MatchesOf(g, u))
  }

  lemma CommonsEmpty(g: Network, u: int, a: set<int>)
    ensures Commons(g, u, a, {}) == {} && Commons(g, u, {}, a) == {}
  {
  }

  /** One more inner-loop step adds the common matches of that pair. */
  lemma CommonsAddRight(g: Network, u: int, m1: int, b: set<int>, m2: int)
    requires Valid(g) && m1 in g.users && m2 in g.users
    ensures Commons(g, u, {m1}, b + {m2}) ==
            Commons(g, u, {m1}, b) + (if m1 != m2 then CommonMatches(g, m1, m2, u) else {})
  {
    if m1 != m2 {
      forall c | c in CommonMatches(g, m1, m2, u)
        ensures c in Commons(g, u, {m1}, b + {m2})
      {
        assert c in g.users[m1].matches;
      }
    }
  }

  /** A finished inner loop for `m1` accounts for `m1` in the outer loop. */
  lemma CommonsAddLeft(g: Network, u: int, a: set<int>, m1: int, b: set<int>)
    ensures Commons(g, u, a + {m1}, b) == Commons(g, u, a, b) + Commons(g, u, {m1}, b)
  {
  }

  lemma TwoMembers(s: set<int>, a: int, b: int)
    requires a in s && b in s && a != b
    ensures |s| >= 2
  {
    var t := s - {a};
    assert b in t;
    assert |t| == |s| - 1;
    NonEmptyWitness(t);
  }

  /** With fewer than two matches there is no pair of different matches, so nothing to close. */
  lemma FewMatchesNothingToClose(g: Network, u: int)
    requires u in g.users && |g.users[u].matches| < 2
    ensures Triadic(g, u) == {}
  {
    forall c | c in Triadic(g, u)
      ensures false
    {
      var m1, m2 :| m1 in g.users[u].matches && m2 in g.users[u].matches && m1 != m2 &&
                    c in MatchesOf(g, m1) && c in MatchesOf(g, m2);
      TwoMembers(g.users[u].matches, m1, m2);
    }
  }

  /** The inner loop for one match `m1`: the common matches of `m1` with each other match. */
  method CommonWith(g: Network, u: int, m1: int) returns (c: set<int>)
    requires Valid(g) && u in g.users && m1 in g.users
    ensures c == Commons(g, u, {m1}, g.users[u].matches)
  {
    var matches := g.users[u].matches;
    c := {};
    var inner := matches;
    ghost var doneInner: set<int> := {};
    CommonsEmpty(g, u, {m1});
    while inner != {}
      invariant inner + doneInner == matches
      invariant c == Commons(g, u, {m1}, doneInner)
      decreases inner
    {
      var m2 := Pick(inner);
      assert m2 in g.users by {
        assert m2 in Refs(g.users[u]);
      }
      CommonsAddRight(g, u, m1, doneInner, m2);
      if m1 != m2 {
        c := c + CommonMatches(g, m1, m2, u);
      }
      inner := inner - {m2};
      doneInner := doneInner + {m2};
    }
  }

  /** The nested loops over pairs of `u`'s matches, collecting their common matches. */
  method CollectCommon(g: Network, u: int) returns (common: set<int>)
    requires Valid(g) && u in g.users
    ensures common == Triadic(g, u)
  {
    var matches := g.users[u].matches;
    common := {};
    var outer := matches;
    ghost var doneOuter: set<int> := {};
    CommonsEmpty(g, u, matches);
    while outer != {}
      invariant outer + doneOuter == matches
      invariant common == Commons(g, u, doneOuter, matches)
      decreases outer
    {
      var m1 := Pick(outer);
      assert m1 in g.users by {
        assert m1 in Refs(g.users[u]);
      }
      var c := CommonWith(g, u, m1);
      CommonsAddLeft(g, u, doneOuter, m1, matches);
      common := common + c;
      outer := outer - {m1};
      doneOuter := doneOuter + {m1};
    }
  }

  /** `r` is `g` after `u` and each of `done` were suggested to each other. */
  ghost predicate SuggestedSoFar(g: Network, r: Network, u: int, done: set<int>) {
    Valid(r) && r.users.Keys == g.users.Keys &&
    (forall w :: w in g.users ==> r.users[w].item == g.users[w].item) &&
    (forall w :: ReqOf(r, w) == ReqOf(g, w) && MatchesOf(r, w) == MatchesOf(g, w)) &&
    (forall w :: SuggOf(r, w) == SuggOf(g, w) + (if w == u then done else {}) +
                                 (if w in done then {u} else {}))
  }

  /** One more suggestion, seen at the vertex of `w`. */
  lemma SuggestStepAt(g: Network, r: Network, u: int, done: set<int>, s: int, w: int)
    requires SuggestedSoFar(g, r, u, done) && u in g.users && s in g.users && s != u
    ensures var r' := AddSuggestion(r, r.users[u].item, r.users[s].item);
            SuggOf(r', w) == SuggOf(g, w) + (if w == u then done + {s} else {}) +
                             (if w in done + {s} then {u} else {}) &&
            ReqOf(r', w) == ReqOf(g, w) && MatchesOf(r', w) == MatchesOf(g, w)
  {
    var a := r.users[u].item;
    var b := r.users[s].item;
    assert a.id == u && b.id == s;
    var r' := AddSuggestion(r, a, b);
    var before := SuggOf(r, w);
    assert before == SuggOf(g, w) + (if w == u then done else {}) + (if w in done then {u} else {});
    assert SuggOf(r', w) == before + (if w == u then {s} else {}) + (if w == s then {u} else {});
    if w == u {
      assert w !in done + {s};
    } else if w == s {
      assert SuggOf(r', w) == SuggOf(g, w) + {u};
    } else {
      assert SuggOf(r', w) == before;
    }
  }

  lemma SuggestStep(g: Network, r: Network, u: int, done: set<int>, s: int)
    requires SuggestedSoFar(g, r, u, done) && u in g.users && s in g.users && s != u
    ensures SuggestedSoFar(g, AddSuggestion(r, r.users[u].item, r.users[s].item), u, done + {s})
  {
    var a := r.users[u].item;
    var b := r.users[s].item;
    assert a.id == u && b.id == s;
    AddSuggestionValid(r, a, b);
    forall w {
      SuggestStepAt(g, r, u, done, s, w);
    }
  }

  /** One `add_suggestion(u.item, s.item)` of the closing loop. */
  method SuggestOne(g: Network, r: Network, u: int, ghost done: set<int>, s: int) returns (r': Network)
    requires SuggestedSoFar(g, r, u, done) && u in g.users && s in g.users && s != u
    ensures SuggestedSoFar(g, r', u, done + {s})
  {
    SuggestStep(g, r, u, done, s);
    r' := AddSuggestion(r, r.users[u].item, r.users[s].item);
  }

  /** The closing loop: `add_suggestion(u, s)` for each collected `s`, in any order. */
  method SuggestAll(g: Network, u: int, common: set<int>) returns (r: Network)
    requires Valid(g) && u in g.users && common <= g.users.Keys && u !in common
    ensures SuggestedSoFar(g, r, u, common)
  {
    r := g;
    var todo := common;
    assert common - todo == {};
    while todo != {}
      invariant todo <= common
      invariant SuggestedSoFar(g, r, u, common - todo)
      decreases todo
    {
      var s := Pick(todo);
      assert (common - todo) + {s} == common - (todo - {s});
      r := SuggestOne(g, r, u, common - todo, s);
      todo := todo - {s};
    }
    assert common - todo == common;
  }

  /**
   * `find_new_suggestion(u)`: nothing changes when `u` has fewer than two matches; otherwise `u`
   * and each user two of its matches share become suggestions of each other, and nothing else
   * changes. Requests and matches are untouched and the graph stays valid.
   */
  method FindNewSuggestion(g: Network, u: int) returns (r: Network)
    requires Valid(g) && u in g.users
    ensures |g.users[u].matches| < 2 ==> r == g
    ensures Valid(r) && r.users.Keys == g.users.Keys
    ensures forall w :: w in g.users ==> r.users[w].item == g.users[w].item
    ensures forall w :: ReqOf(r, w) == ReqOf(g, w) && MatchesOf(r, w) == MatchesOf(g, w)
    ensures forall w :: SuggOf(r, w) == SuggOf(g, w) + (if w == u then Triadic(g, u) else {}) +
                                        (if w in Triadic(g, u) then {u} else {})
  {
    if |g.users[u].matches| < 2 {
      FewMatchesNothingToClose(g, u);
      return g;
    }
    var common := CollectCommon(g, u);
    r := SuggestAll(g, u, common);
  }
}

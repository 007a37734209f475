/**
 * What the social-graph operations keep and what they break: the invariants that hold, the
 * request/accept round trip, and concrete graphs on which the docstring's suggestion invariants
 * of `_User` fail.
 */
module GraphLaws {
  import opened Wrappers
  import opened Users
  import opened SocialGraph

  // ---------------------------------------------------------------------------------------------
  // The representation invariant is kept
  // ---------------------------------------------------------------------------------------------

  lemma AddUserValid(g: Network, u: User)
    requires Valid(g) && u.id !in g.users
    ensures Valid(AddUser(g, u))
  {
  }

  /** Suggesting two users with different ids to each other keeps the graph valid. */
  lemma AddSuggestionValid(g: Network, u1: User, u2: User)
    requires Valid(g) && u1.id != u2.id
    ensures Valid(AddSuggestion(g, u1, u2))
  {
    var r := AddSuggestion(g, u1, u2);
    AddSuggestionIds(g, u1, u2);
    AddSuggestionRefs(g, u1, u2);
    forall a, b | a in r.users && b in r.users[a].matches
      ensures b in r.users && a in r.users[b].matches
    {
      AddSuggestionMatchesAt(g, u1, u2, a, b);
    }
  }

  lemma AddSuggestionMatchesAt(g: Network, u1: User, u2: User, a: int, b: int)
    requires MatchesSymmetric(g)
    requires var r := AddSuggestion(g, u1, u2); a in r.users && b in r.users[a].matches
    ensures var r := AddSuggestion(g, u1, u2); b in r.users && a in r.users[b].matches
  {
    var r := AddSuggestion(g, u1, u2);
    assert b in MatchesOf(r, a) && b in MatchesOf(g, a);
    assert a in MatchesOf(r, b);
  }

  lemma AddSuggestionIds(g: Network, u1: User, u2: User)
    requires KeysAreIds(g)
    ensures KeysAreIds(AddSuggestion(g, u1, u2))
  {
  }

  lemma AddSuggestionRefs(g: Network, u1: User, u2: User)
    requires Closed(g) && NoSelfLinks(g) && u1.id != u2.id
    ensures Closed(AddSuggestion(g, u1, u2)) && NoSelfLinks(AddSuggestion(g, u1, u2))
  {
    var r := AddSuggestion(g, u1, u2);
    forall id | id in r.users
      ensures Refs(r.users[id]) <= r.users.Keys && id !in Refs(r.users[id])
    {
      AddSuggestionRefsAt(g, u1, u2, id);
    }
  }

  lemma AddSuggestionRefsAt(g: Network, u1: User, u2: User, id: int)
    requires Closed(g) && NoSelfLinks(g) && u1.id != u2.id
    requires id in AddSuggestion(g, u1, u2).users
    ensures var v := AddSuggestion(g, u1, u2).users[id];
            Refs(v) <= AddSuggestion(g, u1, u2).users.Keys && id !in Refs(v)
  {
    var r := AddSuggestion(g, u1, u2);
    var v := r.users[id];
    assert v.suggestions == SuggOf(r, id);
    assert v.requests == ReqOf(g, id);
    assert v.matches == MatchesOf(g, id);
    if id in g.users {
      assert Refs(g.users[id]) <= g.users.Keys && id !in Refs(g.users[id]);
    }
  }

  /** A request along a suggestion keeps the graph valid. */
  lemma SendRequestValid(g: Network, a: int, b: int)
    requires Valid(g) && a in g.users && b in g.users && b in g.users[a].suggestions
    ensures Valid(SendRequest(g, a, b))
  {
    var r := SendRequest(g, a, b);
    forall x, y | x in r.users && y in r.users[x].matches
      ensures y in r.users && x in r.users[y].matches
    {
      assert y in MatchesOf(r, x);
    }
    forall id | id in r.users
      ensures Refs(r.users[id]) <= r.users.Keys && id !in Refs(r.users[id])
    {
      assert r.users[id].suggestions == SuggOf(r, id);
      assert r.users[id].requests == ReqOf(r, id);
      assert r.users[id].matches == MatchesOf(r, id);
    }
  }

  /** Accepting a pending request keeps the graph valid; matches stay mutual and self-free. */
  lemma AcceptRequestValid(g: Network, a: int, b: int)
    requires Valid(g) && a in g.users && b in g.users && b in g.users[a].requests
    ensures Valid(AcceptRequest(g, a, b))
  {
    var r := AcceptRequest(g, a, b);
    forall x, y | x in r.users && y in r.users[x].matches
      ensures y in r.users && x in r.users[y].matches
    {
      assert y in MatchesOf(r, x);
      assert x in MatchesOf(r, y);
    }
    forall id | id in r.users
      ensures Refs(r.users[id]) <= r.users.Keys && id !in Refs(r.users[id])
    {
      assert r.users[id].suggestions == SuggOf(r, id);
      assert r.users[id].requests == ReqOf(r, id);
      assert r.users[id].matches == MatchesOf(r, id);
    }
  }

  // ---------------------------------------------------------------------------------------------
  // Round trips
  // ---------------------------------------------------------------------------------------------

  /** After `add_user`, `get_user` finds the new isolated vertex and every other answer is unchanged. */
  lemma GetUserAfterAddUser(g: Network, u: User, id: int)
    requires u.id !in g.users
    ensures GetUser(AddUser(g, u), id) == if id == u.id then Some(Isolated(u)) else GetUser(g, id)
  {
    if id != u.id && id in g.users {
      assert AddUser(g, u).users[id] == g.users[id];
    }
  }

  /** After `add_suggestion(u1, u2)`, `get_suggestions(u1)` succeeds and has gained `u2`. */
  lemma GetSuggestionsAfterAddSuggestion(g: Network, u1: User, u2: User)
    requires u1.id != u2.id
    ensures GetSuggestions(AddSuggestion(g, u1, u2), u1.id) == Ok(SuggOf(g, u1.id) + {u2.id})
  {
    assert SuggOf(AddSuggestion(g, u1, u2), u1.id) == SuggOf(g, u1.id) + {u2.id};
  }

  /** A second identical `add_suggestion` changes nothing. */
  lemma AddSuggestionIdempotent(g: Network, u1: User, u2: User)
    ensures AddSuggestion(AddSuggestion(g, u1, u2), u1, u2) == AddSuggestion(g, u1, u2)
  {
    var r := AddSuggestion(g, u1, u2);
    var r2 := AddSuggestion(r, u1, u2);
    assert r2.users.Keys == r.users.Keys;
    forall w | w in r.users
      ensures r2.users[w] == r.users[w]
    {
      AddSuggestionIdempotentAt(g, u1, u2, w);
    }
    assert r2.users == r.users;
  }

  lemma AddSuggestionIdempotentAt(g: Network, u1: User, u2: User, w: int)
    requires w in AddSuggestion(g, u1, u2).users
    ensures var r := AddSuggestion(g, u1, u2);
            AddSuggestion(r, u1, u2).users[w] == r.users[w]
  {
    var r := AddSuggestion(g, u1, u2);
    var r2 := AddSuggestion(r, u1, u2);
    assert r2.users[w].suggestions == SuggOf(r2, w);
    assert r.users[w].suggestions == SuggOf(r, w);
    assert r2.users[w].requests == ReqOf(r2, w) && r.users[w].requests == ReqOf(r, w);
    assert r2.users[w].matches == MatchesOf(r2, w) && r.users[w].matches == MatchesOf(r, w);
  }

  /** Once `a` has sent `b` a request, `check_request(b, a)` holds and `b` is no longer a suggestion of `a`. */
  lemma SendThenCheck(g: Network, a: int, b: int)
    requires a in g.users && b in g.users && b in g.users[a].suggestions
    ensures CheckRequest(SendRequest(g, a, b), b, a)
    ensures !CheckSuggestion(SendRequest(g, a, b), a, b)
  {
  }

  /**
   * A request along a suggestion, once accepted, leaves the two users matched both ways: each
   * side's `check_request` holds, the request is consumed and the graph stays valid.
   */
  lemma SendThenAccept(g: Network, a: int, b: int)
    requires Valid(g) && a in g.users && b in g.users && b in g.users[a].suggestions
    ensures var g1 := SendRequest(g, a, b);
            a in g1.users[b].requests &&
            var g2 := AcceptRequest(g1, b, a);
            Valid(g2) && CheckRequest(g2, a, b) && CheckRequest(g2, b, a) &&
            a !in ReqOf(g2, b) && b in MatchesOf(g2, a) && a in MatchesOf(g2, b)
  {
    var g1 := SendRequest(g, a, b);
    assert a in ReqOf(g1, b);
    SendRequestValid(g, a, b);
    AcceptRequestValid(g1, b, a);
  }

  // ---------------------------------------------------------------------------------------------
  // Relations are never lost: some link between two users survives every operation
  // ---------------------------------------------------------------------------------------------

  lemma AddSuggestionKeepsLinks(g: Network, u1: User, u2: User)
    ensures Linked(AddSuggestion(g, u1, u2), u1.id, u2.id)
    ensures forall x, y :: Linked(g, x, y) ==> Linked(AddSuggestion(g, u1, u2), x, y)
  {
    var r := AddSuggestion(g, u1, u2);
    forall x, y | Linked(g, x, y)
      ensures Linked(r, x, y)
    {
      assert SuggOf(g, x) <= SuggOf(r, x) && SuggOf(g, y) <= SuggOf(r, y);
      assert ReqOf(g, x) == ReqOf(r, x) && ReqOf(g, y) == ReqOf(r, y);
      assert MatchesOf(g, x) == MatchesOf(r, x) && MatchesOf(g, y) == MatchesOf(r, y);
    }
  }

  /** The suggestion `send_request` removes turns into a request, so the pair stays linked. */
  lemma SendRequestKeepsLinks(g: Network, a: int, b: int)
    requires a in g.users && b in g.users && b in g.users[a].suggestions
    ensures forall x, y :: Linked(g, x, y) ==> Linked(SendRequest(g, a, b), x, y)
  {
    var r := SendRequest(g, a, b);
    forall x, y | Linked(g, x, y)
      ensures Linked(r, x, y)
    {
      assert ReqOf(g, x) <= ReqOf(r, x) && ReqOf(g, y) <= ReqOf(r, y);
      assert MatchesOf(g, x) == MatchesOf(r, x) && MatchesOf(g, y) == MatchesOf(r, y);
      if !(x == a && y == b) && !(x == b && y == a) {
        assert y in SuggOf(g, x) ==> y in SuggOf(r, x);
        assert x in SuggOf(g, y) ==> x in SuggOf(r, y);
      }
    }
  }

  /** The request `accept_request` consumes turns into a match, so the pair stays linked. */
  lemma AcceptRequestKeepsLinks(g: Network, a: int, b: int)
    requires a in g.users && b in g.users && b in g.users[a].requests
    ensures forall x, y :: Linked(g, x, y) ==> Linked(AcceptRequest(g, a, b), x, y)
  {
    var r := AcceptRequest(g, a, b);
    forall x, y | Linked(g, x, y)
      ensures Linked(r, x, y)
    {
      assert SuggOf(g, x) == SuggOf(r, x) && SuggOf(g, y) == SuggOf(r, y);
      assert MatchesOf(g, x) <= MatchesOf(r, x) && MatchesOf(g, y) <= MatchesOf(r, y);
      if !(x == a && y == b) && !(x == b && y == a) {
        assert y in ReqOf(g, x) ==> y in ReqOf(r, x);
        assert x in ReqOf(g, y) ==> x in ReqOf(r, y);
      }
    }
  }

  // ---------------------------------------------------------------------------------------------
  // Invariants the `_User` docstring states but the code does not keep
  // ---------------------------------------------------------------------------------------------

  /** Suggestions are mutual. */
  ghost predicate SuggestionsSymmetric(g: Network) {
    forall a, b :: a in g.users && b in SuggOf(g, a) ==> a in SuggOf(g, b)
  }

  /** Nobody with a pending request to a user is also suggested to that user. */
  ghost predicate RequestsNotSuggested(g: Network) {
    forall a, b :: a in g.users && b in ReqOf(g, a) ==> b !in SuggOf(g, a)
  }

  /** Nobody suggested to a user is matched with it. */
  ghost predicate SuggestionsNotMatched(g: Network) {
    forall a, b :: a in g.users && b in SuggOf(g, a) ==> a !in MatchesOf(g, b)
  }

  /** Nobody matched with a user has it as a suggestion. */
  ghost predicate MatchesNotSuggested(g: Network) {
    forall a, b :: a in g.users && b in MatchesOf(g, a) ==> a !in SuggOf(g, b)
  }

  /** A user with the given id and every other field blank. */
  function Someone(id: int): (u: User)
    ensures u.id == id
  {
    User("", "", id, 0, "", false, false, (0, 0), false, "", ("", ""), 0, false, 0, 0)
  }

  /**
   * Users 1 and 2 suggested to each other satisfy every docstring invariant. After 1 sends 2 a
   * request, 1 is still a suggestion of 2 but 2 is no longer one of 1, and 2 holds 1 both as a
   * request and as a suggestion: suggestion symmetry and request/suggestion exclusion both fail.
   */
  lemma SendRequestBreaksSuggestionInvariants()
    ensures var g := AddSuggestion(Network(map[]), Someone(1), Someone(2));
            Valid(g) && SuggestionsSymmetric(g) && RequestsNotSuggested(g) &&
            var g1 := SendRequest(g, 1, 2);
            Valid(g1) && !SuggestionsSymmetric(g1) && !RequestsNotSuggested(g1)
  {
    var g := AddSuggestion(Network(map[]), Someone(1), Someone(2));
    PairSuggested();
    SendRequestValid(g, 1, 2);
    var g1 := SendRequest(g, 1, 2);
    assert 1 in SuggOf(g1, 2) && 2 !in SuggOf(g1, 1);
    assert 1 in ReqOf(g1, 2);
  }

  /** The two-user graph the examples start from satisfies the suggestion invariants. */
  lemma PairSuggested()
    ensures var g := AddSuggestion(Network(map[]), Someone(1), Someone(2));
            Valid(g) && SuggestionsSymmetric(g) && RequestsNotSuggested(g) &&
            g.users.Keys == {1, 2} && SuggOf(g, 1) == {2} && SuggOf(g, 2) == {1}
  {
    var g := AddSuggestion(Network(map[]), Someone(1), Someone(2));
    AddSuggestionValid(Network(map[]), Someone(1), Someone(2));
    assert g.users.Keys == {1, 2};
    assert SuggOf(g, 1) == {2} && SuggOf(g, 2) == {1};
    assert ReqOf(g, 1) == {} && ReqOf(g, 2) == {};
  }

  /**
   * Continuing that run, once 2 accepts the request the two are matched while 1 is still a
   * suggestion of 2: a suggested user is matched, and a match still has a suggestion.
   */
  lemma AcceptRequestBreaksMatchInvariants()
    ensures var g := SendRequest(AddSuggestion(Network(map[]), Someone(1), Someone(2)), 1, 2);
            Valid(g) && 1 in g.users[2].requests &&
            var g1 := AcceptRequest(g, 2, 1);
            Valid(g1) && !SuggestionsNotMatched(g1) && !MatchesNotSuggested(g1)
  {
    var g0 := AddSuggestion(Network(map[]), Someone(1), Someone(2));
    AddSuggestionValid(Network(map[]), Someone(1), Someone(2));
    SendRequestValid(g0, 1, 2);
    var g := SendRequest(g0, 1, 2);
    assert 1 in ReqOf(g, 2);
    AcceptRequestValid(g, 2, 1);
    var g1 := AcceptRequest(g, 2, 1);
    assert 1 in SuggOf(g1, 2) && 2 in MatchesOf(g1, 1);
  }
}

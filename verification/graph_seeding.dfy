/**
 * `Network.create_network_single_community`: seeds the graph for one group of users. For every
 * unordered pair with different ids it makes sure the two are suggested to each other, and
 * unless one of them is `exclude` or a request or match already runs from the second to the
 * first, sends a request from the first and lets a coin decide whether the second accepts it.
 * The loops run over a list, so their order is fixed; the k-th coin is `coins(k)`.
 */
module Seeding {
  import opened Users
  import opened SocialGraph
  import opened GraphLaws

  /** The ids of a list of users. */
  function Ids(users: seq<User>): set<int> {
    set u | u in users :: u.id
  }

  /**
   * The loop body for the pair (`u1`, `u2`): the graph afterwards and the index of the next
   * unused coin.
   */
  function ProcessPair(g: Network, u1: User, u2: User, exclude: User, coins: nat -> bool, k: nat): (r: (Network, nat))
    ensures r.1 == k || r.1 == k + 1
  {
    var g1 := if !CheckSuggestion(g, u1.id, u2.id) then AddSuggestion(g, u1, u2) else g;
    if u1.id != exclude.id && u2.id != exclude.id && !CheckRequest(g1, u1.id, u2.id) then
      var g2 := SendRequest(g1, u1.id, u2.id);
      (if coins(k) then AcceptRequest(g2, u2.id, u1.id) else g2, k + 1)
    else (g1, k)
  }

  /** One inner-loop iteration: the pair is processed unless its ids are equal or it was seen, in either order. */
  function Step(g: Network, users: seq<User>, exclude: User, coins: nat -> bool,
                i: nat, j: nat, visited: set<(int, int)>, k: nat): (Network, nat)
    requires i < |users| && j < |users|
  {
    var u1 := users[i];
    var u2 := users[j];
    if u1.id != u2.id && (u1.id, u2.id) !in visited && (u2.id, u1.id) !in visited
    then ProcessPair(g, u1, u2, exclude, coins, k) else (g, k)
  }

  /** The inner loop for `users[i]`, from position `j` on; every pair is marked as seen. */
  function Inner(g: Network, users: seq<User>, exclude: User, coins: nat -> bool,
                 i: nat, j: nat, visited: set<(int, int)>, k: nat): (Network, set<(int, int)>, nat)
    requires i < |users| && j <= |users|
    decreases |users| - j
  {
    if j == |users| then (g, visited, k)
    else
      var step := Step(g, users, exclude, coins, i, j, visited, k);
      Inner(step.0, users, exclude, coins, i, j + 1, visited + {(users[i].id, users[j].id)}, step.1)
  }

  /** The outer loop, from position `i` on. */
  function Outer(g: Network, users: seq<User>, exclude: User, coins: nat -> bool,
                 i: nat, visited: set<(int, int)>, k: nat): (Network, set<(int, int)>, nat)
    requires i <= |users|
    decreases |users| - i
  {
    if i == |users| then (g, visited, k)
    else
      var inner := Inner(g, users, exclude, coins, i, 0, visited, k);
      Outer(inner.0, users, exclude, coins, i + 1, inner.1, inner.2)
  }

  /** A lone user is added first; `add_user` overwrites an existing vertex, hence the precondition. */
  function CreateNetworkSingleCommunity(g: Network, users: seq<User>, exclude: User, coins: nat -> bool): Network
    requires |users| == 1 ==> users[0].id !in g.users
  {
    var g0 := if |users| == 1 then AddUser(g, users[0]) else g;
    Outer(g0, users, exclude, coins, 0, {}, 0).0
  }

  // ---------------------------------------------------------------------------------------------
  // What one step may change
  // ---------------------------------------------------------------------------------------------

  /** Every pair seen with different ids is linked. */
  ghost predicate PairsLinked(g: Network, visited: set<(int, int)>) {
    forall p :: p in visited && p.0 != p.1 ==> Linked(g, p.0, p.1)
  }

  /** No link of `g` is lost in `r`. */
  ghost predicate KeepsLinks(g: Network, r: Network) {
    forall a, b :: Linked(g, a, b) ==> Linked(r, a, b)
  }

  /** New entries of one relation of `g` in `r` only join members of `s`. */
  ghost predicate SuggWithin(g: Network, r: Network, s: set<int>) {
    forall w :: SuggOf(r, w) - SuggOf(g, w) <= s && (SuggOf(r, w) <= SuggOf(g, w) || w in s)
  }

  ghost predicate ReqWithin(g: Network, r: Network, s: set<int>) {
    forall w :: ReqOf(r, w) - ReqOf(g, w) <= s && (ReqOf(r, w) <= ReqOf(g, w) || w in s)
  }

  ghost predicate MatchesWithin(g: Network, r: Network, s: set<int>) {
    forall w :: MatchesOf(r, w) - MatchesOf(g, w) <= s && (MatchesOf(r, w) <= MatchesOf(g, w) || w in s)
  }

  /**
   * From `g` to `r`, vertices are only added for ids in `t`, new suggestions only join members
   * of `t`, and new requests and matches only join members of `s`.
   */
  ghost predicate ChangesWithin(g: Network, r: Network, t: set<int>, s: set<int>) {
    g.users.Keys <= r.users.Keys && r.users.Keys <= g.users.Keys + t &&
    SuggWithin(g, r, t) && ReqWithin(g, r, s) && MatchesWithin(g, r, s)
  }

  lemma ChangesWithinRefl(g: Network, t: set<int>, s: set<int>)
    ensures ChangesWithin(g, g, t, s)
  {
    assert SuggWithin(g, g, t) && ReqWithin(g, g, s) && MatchesWithin(g, g, s);
  }

  lemma SuggWithinTrans(g1: Network, g2: Network, g3: Network, s: set<int>)
    requires SuggWithin(g1, g2, s) && SuggWithin(g2, g3, s)
    ensures SuggWithin(g1, g3, s)
  {
  }

  lemma ReqWithinTrans(g1: Network, g2: Network, g3: Network, s: set<int>)
    requires ReqWithin(g1, g2, s) && ReqWithin(g2, g3, s)
    ensures ReqWithin(g1, g3, s)
  {
  }

  lemma MatchesWithinTrans(g1: Network, g2: Network, g3: Network, s: set<int>)
    requires MatchesWithin(g1, g2, s) && MatchesWithin(g2, g3, s)
    ensures MatchesWithin(g1, g3, s)
  {
  }

  lemma ChangesWithinTrans(g1: Network, g2: Network, g3: Network, t: set<int>, s: set<int>)
    requires ChangesWithin(g1, g2, t, s) && ChangesWithin(g2, g3, t, s)
    ensures ChangesWithin(g1, g3, t, s)
  {
    SuggWithinTrans(g1, g2, g3, t);
    ReqWithinTrans(g1, g2, g3, s);
    MatchesWithinTrans(g1, g2, g3, s);
  }

  lemma KeepsLinksTrans(g1: Network, g2: Network, g3: Network)
    requires KeepsLinks(g1, g2) && KeepsLinks(g2, g3)
    ensures KeepsLinks(g1, g3)
  {
  }

  /** The suggestion half of the loop body. */
  lemma SuggestHalf(g: Network, u1: User, u2: User)
    requires Valid(g) && u1.id != u2.id
    ensures var g1 := if !CheckSuggestion(g, u1.id, u2.id) then AddSuggestion(g, u1, u2) else g;
            Valid(g1) && KeepsLinks(g, g1) && u1.id in g1.users && u2.id in g1.users &&
            u2.id in g1.users[u1.id].suggestions &&
            ChangesWithin(g, g1, {u1.id, u2.id}, {}) &&
            CheckRequest(g1, u1.id, u2.id) == CheckRequest(g, u1.id, u2.id)
  {
    if !CheckSuggestion(g, u1.id, u2.id) {
      AddSuggestionValid(g, u1, u2);
      AddSuggestionKeepsLinks(g, u1, u2);
      AddChangesWithin(g, u1, u2);
      var g1 := AddSuggestion(g, u1, u2);
      assert ReqOf(g1, u1.id) == ReqOf(g, u1.id) && MatchesOf(g1, u1.id) == MatchesOf(g, u1.id);
    } else {
      ChangesWithinRefl(g, {u1.id, u2.id}, {});
    }
  }

  /** `add_suggestion` adds vertices and suggestions for its two users only. */
  lemma AddChangesWithin(g: Network, u1: User, u2: User)
    ensures ChangesWithin(g, AddSuggestion(g, u1, u2), {u1.id, u2.id}, {})
  {
    AddSuggWithin(g, u1, u2);
    var r := AddSuggestion(g, u1, u2);
    assert ReqWithin(g, r, {}) && MatchesWithin(g, r, {});
  }

  lemma AddSuggWithin(g: Network, u1: User, u2: User)
    ensures SuggWithin(g, AddSuggestion(g, u1, u2), {u1.id, u2.id})
  {
    var r := AddSuggestion(g, u1, u2);
    forall w
      ensures SuggOf(r, w) - SuggOf(g, w) <= {u1.id, u2.id}
      ensures SuggOf(r, w) <= SuggOf(g, w) || w in {u1.id, u2.id}
    {
      assert SuggOf(r, w) ==
        SuggOf(g, w) + (if w == u1.id then {u2.id} else {}) + (if w == u2.id then {u1.id} else {});
    }
  }

  /**
   * The loop body keeps the graph valid and every link, links the pair, and spends a coin
   * exactly when neither user is `exclude` and `check_request(u1, u2)` was false before it.
   */
  lemma ProcessPairSpec(g: Network, u1: User, u2: User, exclude: User, coins: nat -> bool, k: nat)
    requires Valid(g) && u1.id != u2.id
    ensures var r := ProcessPair(g, u1, u2, exclude, coins, k);
            Valid(r.0) && KeepsLinks(g, r.0) && Linked(r.0, u1.id, u2.id) &&
            (r.1 == k + 1 <==> u1.id != exclude.id && u2.id != exclude.id && !CheckRequest(g, u1.id, u2.id)) &&
            (r.1 == k + 1 && coins(k) ==> u2.id in MatchesOf(r.0, u1.id) && u1.id in MatchesOf(r.0, u2.id)) &&
            (r.1 == k + 1 && !coins(k) ==> u1.id in ReqOf(r.0, u2.id)) &&
            ChangesWithin(g, r.0, {u1.id, u2.id}, {u1.id, u2.id} - {exclude.id})
  {
    SuggestHalf(g, u1, u2);
    var g1 := if !CheckSuggestion(g, u1.id, u2.id) then AddSuggestion(g, u1, u2) else g;
    ChangesWithinWiden(g, g1, {u1.id, u2.id}, {}, {u1.id, u2.id}, {u1.id, u2.id} - {exclude.id});
    if u1.id != exclude.id && u2.id != exclude.id && !CheckRequest(g1, u1.id, u2.id) {
      SendRequestValid(g1, u1.id, u2.id);
      SendRequestKeepsLinks(g1, u1.id, u2.id);
      var g2 := SendRequest(g1, u1.id, u2.id);
      assert Linked(g2, u1.id, u2.id) by {
        assert u1.id in ReqOf(g2, u2.id);
      }
      SendChangesWithin(g1, u1.id, u2.id, {u1.id, u2.id}, {u1.id, u2.id} - {exclude.id});
      ChangesWithinTrans(g, g1, g2, {u1.id, u2.id}, {u1.id, u2.id} - {exclude.id});
      KeepsLinksTrans(g, g1, g2);
      if coins(k) {
        assert u1.id in g2.users[u2.id].requests by {
          assert u1.id in ReqOf(g2, u2.id);
        }
        AcceptRequestValid(g2, u2.id, u1.id);
        AcceptRequestKeepsLinks(g2, u2.id, u1.id);
        var g3 := AcceptRequest(g2, u2.id, u1.id);
        AcceptChangesWithin(g2, u2.id, u1.id, {u1.id, u2.id}, {u1.id, u2.id} - {exclude.id});
        ChangesWithinTrans(g, g2, g3, {u1.id, u2.id}, {u1.id, u2.id} - {exclude.id});
        KeepsLinksTrans(g, g2, g3);
      }
    } else {
      assert Linked(g1, u1.id, u2.id) by {
        assert u2.id in SuggOf(g1, u1.id);
      }
    }
  }

  lemma ChangesWithinWiden(g: Network, r: Network, t: set<int>, s: set<int>, t': set<int>, s': set<int>)
    requires ChangesWithin(g, r, t, s) && t <= t' && s <= s'
    ensures ChangesWithin(g, r, t', s')
  {
    assert SuggWithin(g, r, t) && ReqWithin(g, r, s) && MatchesWithin(g, r, s);
  }

  lemma SendChangesWithin(g: Network, a: int, b: int, t: set<int>, s: set<int>)
    requires a in g.users && b in g.users && b in g.users[a].suggestions
    requires a in s && b in s
    ensures ChangesWithin(g, SendRequest(g, a, b), t, s)
  {
  }

  lemma AcceptChangesWithin(g: Network, a: int, b: int, t: set<int>, s: set<int>)
    requires a in g.users && b in g.users && b in g.users[a].requests
    requires a in s && b in s
    ensures ChangesWithin(g, AcceptRequest(g, a, b), t, s)
  {
  }

  // ---------------------------------------------------------------------------------------------
  // The loops
  // ---------------------------------------------------------------------------------------------

  lemma PairsLinkedKept(g: Network, r: Network, visited: set<(int, int)>)
    requires PairsLinked(g, visited) && KeepsLinks(g, r)
    ensures PairsLinked(r, visited)
  {
  }

  /**
   * What the loops keep from `g` to `r`: validity and every link, a link for every pair seen
   * so far, and changes only among the given users.
   */
  ghost predicate Progress(g: Network, r: Network, users: seq<User>, exclude: User, visited: set<(int, int)>) {
    Valid(r) && KeepsLinks(g, r) && PairsLinked(r, visited) &&
    ChangesWithin(g, r, Ids(users), Ids(users) - {exclude.id})
  }

  lemma ProgressRefl(g: Network, users: seq<User>, exclude: User, visited: set<(int, int)>)
    requires Valid(g) && PairsLinked(g, visited)
    ensures Progress(g, g, users, exclude, visited)
  {
    ChangesWithinRefl(g, Ids(users), Ids(users) - {exclude.id});
  }

  lemma ProgressTrans(g: Network, m: Network, r: Network, users: seq<User>, exclude: User,
                      v1: set<(int, int)>, v2: set<(int, int)>)
    requires Progress(g, m, users, exclude, v1) && Progress(m, r, users, exclude, v2)
    ensures Progress(g, r, users, exclude, v2)
  {
    KeepsLinksTrans(g, m, r);
    ChangesWithinTrans(g, m, r, Ids(users), Ids(users) - {exclude.id});
  }

  /** One inner-loop iteration, whether it processes the pair or skips it. */
  lemma InnerStep(g: Network, users: seq<User>, exclude: User, coins: nat -> bool,
                  i: nat, j: nat, visited: set<(int, int)>, k: nat)
    requires Valid(g) && i < |users| && j < |users| && PairsLinked(g, visited)
    ensures Progress(g, Step(g, users, exclude, coins, i, j, visited, k).0, users, exclude,
                     visited + {(users[i].id, users[j].id)})
  {
    var ids := Ids(users);
    var s := ids - {exclude.id};
    var u1 := users[i];
    var u2 := users[j];
    assert u1.id in ids && u2.id in ids;
    if u1.id != u2.id && (u1.id, u2.id) !in visited && (u2.id, u1.id) !in visited {
      var step := ProcessPair(g, u1, u2, exclude, coins, k);
      ProcessPairSpec(g, u1, u2, exclude, coins, k);
      ChangesWithinWiden(g, step.0, {u1.id, u2.id}, {u1.id, u2.id} - {exclude.id}, ids, s);
      PairsLinkedKept(g, step.0, visited);
    } else {
      if u1.id != u2.id && (u1.id, u2.id) !in visited {
        assert Linked(g, u2.id, u1.id);
      }
      ProgressRefl(g, users, exclude, visited + {(u1.id, u2.id)});
    }
  }

  /**
   * The inner loop keeps the graph valid and every link, links every pair it has seen, and
   * records the pair of `users[i]` with each later position. A pair is skipped only when its ids
   * are equal or it was seen before, in either order, and so is linked already.
   */
  lemma {:induction false} InnerSpec(g: Network, users: seq<User>, exclude: User, coins: nat -> bool,
                                     i: nat, j: nat, visited: set<(int, int)>, k: nat)
    requires Valid(g) && i < |users| && j <= |users| && PairsLinked(g, visited)
    ensures var r := Inner(g, users, exclude, coins, i, j, visited, k);
            Progress(g, r.0, users, exclude, r.1) && visited <= r.1 &&
            forall j' :: j <= j' < |users| ==> (users[i].id, users[j'].id) in r.1
    decreases |users| - j
  {
    if j == |users| {
      ProgressRefl(g, users, exclude, visited);
    } else {
      var step := Step(g, users, exclude, coins, i, j, visited, k);
      var visited' := visited + {(users[i].id, users[j].id)};
      InnerStep(g, users, exclude, coins, i, j, visited, k);
      InnerSpec(step.0, users, exclude, coins, i, j + 1, visited', step.1);
      var r := Inner(step.0, users, exclude, coins, i, j + 1, visited', step.1);
      ProgressTrans(g, step.0, r.0, users, exclude, visited', r.1);
    }
  }

  /** The outer loop records every pair of positions from `i` on and keeps what `InnerSpec` keeps. */
  lemma {:induction false} OuterSpec(g: Network, users: seq<User>, exclude: User, coins: nat -> bool,
                                     i: nat, visited: set<(int, int)>, k: nat)
    requires Valid(g) && i <= |users| && PairsLinked(g, visited)
    ensures var r := Outer(g, users, exclude, coins, i, visited, k);
            Progress(g, r.0, users, exclude, r.1) && visited <= r.1 &&
            forall i', j' :: i <= i' < |users| && 0 <= j' < |users| ==> (users[i'].id, users[j'].id) in r.1
    decreases |users| - i
  {
    if i == |users| {
      ProgressRefl(g, users, exclude, visited);
    } else {
      InnerSpec(g, users, exclude, coins, i, 0, visited, k);
      var inner := Inner(g, users, exclude, coins, i, 0, visited, k);
      OuterSpec(inner.0, users, exclude, coins, i + 1, inner.1, inner.2);
      var r := Outer(inner.0, users, exclude, coins, i + 1, inner.1, inner.2);
      ProgressTrans(g, inner.0, r.0, users, exclude, inner.1, r.1);
      forall i', j' | i <= i' < |users| && 0 <= j' < |users|
        ensures (users[i'].id, users[j'].id) in r.1
      {
        if i' == i {
          assert (users[i'].id, users[j'].id) in inner.1;
        }
      }
    }
  }

  lemma AddUserKeepsLinks(g: Network, u: User)
    requires u.id !in g.users
    ensures KeepsLinks(g, AddUser(g, u))
  {
    var r := AddUser(g, u);
    forall a, b | Linked(g, a, b)
      ensures Linked(r, a, b)
    {
      assert SuggOf(r, a) == SuggOf(g, a) && SuggOf(r, b) == SuggOf(g, b);
      assert ReqOf(r, a) == ReqOf(g, a) && ReqOf(r, b) == ReqOf(g, b);
      assert MatchesOf(r, a) == MatchesOf(g, a) && MatchesOf(r, b) == MatchesOf(g, b);
    }
  }

  /** Adding the lone user is progress too. */
  lemma LoneUserProgress(g: Network, users: seq<User>, exclude: User)
    requires Valid(g) && |users| == 1 && users[0].id !in g.users
    ensures Progress(g, AddUser(g, users[0]), users, exclude, {})
  {
    var r := AddUser(g, users[0]);
    AddUserValid(g, users[0]);
    AddUserKeepsLinks(g, users[0]);
    assert users[0] in users;
    assert SuggWithin(g, r, Ids(users));
    assert ReqWithin(g, r, Ids(users) - {exclude.id});
    assert MatchesWithin(g, r, Ids(users) - {exclude.id});
  }

  /**
   * `create_network_single_community`, the graph part: it stays valid and keeps every link;
   * vertices are added only for the given users, and a lone user always is; every two of
   * them with different ids end up linked; and all new suggestions, requests and matches join
   * given users, the requests and matches never `exclude`.
   */
  lemma CreateNetworkSingleCommunitySpec(g: Network, users: seq<User>, exclude: User, coins: nat -> bool)
    requires Valid(g) && (|users| == 1 ==> users[0].id !in g.users)
    ensures var r := CreateNetworkSingleCommunity(g, users, exclude, coins);
            Valid(r) && KeepsLinks(g, r) &&
            ChangesWithin(g, r, Ids(users), Ids(users) - {exclude.id}) &&
            (|users| == 1 ==> users[0].id in r.users) &&
            forall a, b :: 0 <= a < |users| && 0 <= b < |users| && users[a].id != users[b].id ==>
              Linked(r, users[a].id, users[b].id)
  {
    var g0 := if |users| == 1 then AddUser(g, users[0]) else g;
    if |users| == 1 {
      LoneUserProgress(g, users, exclude);
    } else {
      ProgressRefl(g, users, exclude, {});
    }
    OuterSpec(g0, users, exclude, coins, 0, {}, 0);
    var out := Outer(g0, users, exclude, coins, 0, {}, 0);
    ProgressTrans(g, g0, out.0, users, exclude, {}, out.1);
    var r := out.0;
    forall a, b | 0 <= a < |users| && 0 <= b < |users| && users[a].id != users[b].id
      ensures Linked(r, users[a].id, users[b].id)
    {
      assert (users[a].id, users[b].id) in out.1;
    }
  }

  /**
   * Whatever the coins say, `exclude` ends with no request or match it did not have before,
   * and is in no new request or match of anyone else.
   */
  lemma ExcludeGetsNoLinks(g: Network, users: seq<User>, exclude: User, coins: nat -> bool)
    requires Valid(g) && (|users| == 1 ==> users[0].id !in g.users)
    ensures var r := CreateNetworkSingleCommunity(g, users, exclude, coins);
            (forall x :: x in ReqOf(r, exclude.id) ==> x in ReqOf(g, exclude.id)) &&
            (forall x :: x in MatchesOf(r, exclude.id) ==> x in MatchesOf(g, exclude.id)) &&
            (forall w :: exclude.id in ReqOf(r, w) ==> exclude.id in ReqOf(g, w)) &&
            (forall w :: exclude.id in MatchesOf(r, w) ==> exclude.id in MatchesOf(g, w))
  {
    CreateNetworkSingleCommunitySpec(g, users, exclude, coins);
    var r := CreateNetworkSingleCommunity(g, users, exclude, coins);
    assert ReqWithin(g, r, Ids(users) - {exclude.id});
    assert MatchesWithin(g, r, Ids(users) - {exclude.id});
  }
}

/**
 * The social graph of app/social_graph.py. Every vertex wraps one user and holds three relations
 * to other vertices: the users suggested to it, the users that sent it a request, and its matches.
 * Python keeps object references in those sets and compares vertices by identity; here each
 * relation is a set of user ids, which names the same vertices once ids are unique keys.
 */
module SocialGraph {
  import opened Wrappers
  import opened Users

  /** One `_User`; its `user_id` is always `item.id`. */
  datatype Vertex = Vertex(item: User, suggestions: set<int>, requests: set<int>, matches: set<int>)

  /** `Network._users`: vertices keyed by user id. */
  datatype Network = Network(users: map<int, Vertex>)

  /** A new vertex as `_User(user, set())` makes it: every relation empty. */
  function Isolated(u: User): Vertex {
    Vertex(u, {}, {}, {})
  }

  /** Every id a vertex refers to. */
  function Refs(v: Vertex): set<int> {
    v.suggestions + v.requests + v.matches
  }

  // The relations of a vertex id, empty for an id that has no vertex.

  function SuggOf(g: Network, w: int): set<int> {
    if w in g.users then g.users[w].suggestions else {}
  }

  function ReqOf(g: Network, w: int): set<int> {
    if w in g.users then g.users[w].requests else {}
  }

  function MatchesOf(g: Network, w: int): set<int> {
    if w in g.users then g.users[w].matches else {}
  }

  // ---------------------------------------------------------------------------------------------
  // The invariants the code maintains
  // ---------------------------------------------------------------------------------------------

  /** Each key is the id of the user its vertex wraps. */
  ghost predicate KeysAreIds(g: Network) {
    forall id :: id in g.users ==> g.users[id].item.id == id
  }

  /** Every id a vertex refers to has a vertex of its own. */
  ghost predicate Closed(g: Network) {
    forall id :: id in g.users ==> Refs(g.users[id]) <= g.users.Keys
  }

  /** No vertex is suggested to, requested by or matched with itself. */
  ghost predicate NoSelfLinks(g: Network) {
    forall id :: id in g.users ==> id !in Refs(g.users[id])
  }

  /** Matching is mutual. */
  ghost predicate MatchesSymmetric(g: Network) {
    forall a, b :: a in g.users && b in g.users[a].matches ==> b in g.users && a in g.users[b].matches
  }

  ghost predicate Valid(g: Network) {
    KeysAreIds(g) && Closed(g) && NoSelfLinks(g) && MatchesSymmetric(g)
  }

  /** Any relation at all between `a` and `b`, in either direction. */
  ghost predicate Linked(g: Network, a: int, b: int) {
    a in g.users && b in g.users &&
    (b in SuggOf(g, a) || a in SuggOf(g, b) || b in ReqOf(g, a) || a in ReqOf(g, b) ||
     b in MatchesOf(g, a) || a in MatchesOf(g, b))
  }

  // ---------------------------------------------------------------------------------------------
  // Network operations
  // ---------------------------------------------------------------------------------------------

  /** `get_user`: the vertex of an id, or `None`. */
  function GetUser(g: Network, id: int): (r: Option<Vertex>)
    ensures r.Some? <==> id in g.users
    ensures r.Some? ==> r.value == g.users[id]
  {
    if id in g.users then Some(g.users[id]) else None
  }

  /** `add_user`, for an id not yet in the graph: an isolated vertex is added and nothing else changes. */
  function AddUser(g: Network, u: User): (r: Network)
    requires u.id !in g.users
    ensures r.users.Keys == g.users.Keys + {u.id}
    ensures r.users[u.id] == Isolated(u)
    ensures forall id :: id in g.users ==> r.users[id] == g.users[id]
  {
    Network(g.users[u.id := Isolated(u)])
  }

  /** `if user.id not in self._users: self.add_user(user)`. */
  function EnsureUser(g: Network, u: User): (r: Network)
    ensures r.users.Keys == g.users.Keys + {u.id}
    ensures forall w :: w in g.users ==> r.users[w] == g.users[w]
    ensures u.id !in g.users ==> r.users[u.id] == Isolated(u)
  {
    if u.id in g.users then g else AddUser(g, u)
  }

  /** `a.suggestions.add(b)` on the vertex of `a`. */
  function SuggestTo(g: Network, a: int, b: int): (r: Network)
    requires a in g.users
    ensures r.users.Keys == g.users.Keys
    ensures r.users[a] == g.users[a].(suggestions := g.users[a].suggestions + {b})
    ensures forall w :: w in g.users && w != a ==> r.users[w] == g.users[w]
  {
    Network(g.users[a := g.users[a].(suggestions := g.users[a].suggestions + {b})])
  }

  /**
   * `add_suggestion`: creates whichever of the two vertices is missing, then suggests each user
   * to the other. Requests, matches and the other vertices are untouched.
   */
  function AddSuggestion(g: Network, u1: User, u2: User): (r: Network)
    ensures r.users.Keys == g.users.Keys + {u1.id, u2.id}
    ensures u2.id in SuggOf(r, u1.id) && u1.id in SuggOf(r, u2.id)
    ensures forall w :: SuggOf(r, w) ==
              SuggOf(g, w) + (if w == u1.id then {u2.id} else {}) + (if w == u2.id then {u1.id} else {})
    ensures forall w :: ReqOf(r, w) == ReqOf(g, w) && MatchesOf(r, w) == MatchesOf(g, w)
    ensures forall w :: w in g.users ==> r.users[w].item == g.users[w].item
    ensures u1.id !in g.users ==> r.users[u1.id].item == u1
    ensures u2.id !in g.users && u2.id != u1.id ==> r.users[u2.id].item == u2
    ensures forall w :: w in g.users && w != u1.id && w != u2.id ==> r.users[w] == g.users[w]
  {
    AddSuggestionEffect(g, u1, u2);
    AddSuggestionSteps(g, u1, u2)
  }

  /** The result of `add_suggestion`'s four steps. */
  function AddSuggestionSteps(g: Network, u1: User, u2: User): Network {
    SuggestTo(SuggestTo(EnsureUser(EnsureUser(g, u1), u2), u1.id, u2.id), u2.id, u1.id)
  }

  /** What those steps do to the vertex of `w`. */
  lemma AddSuggestionAt(g: Network, u1: User, u2: User, w: int)
    ensures var r := AddSuggestionSteps(g, u1, u2);
            SuggOf(r, w) ==
              SuggOf(g, w) + (if w == u1.id then {u2.id} else {}) + (if w == u2.id then {u1.id} else {}) &&
            ReqOf(r, w) == ReqOf(g, w) && MatchesOf(r, w) == MatchesOf(g, w) &&
            (w in g.users ==> r.users[w].item == g.users[w].item) &&
            (w in g.users && w != u1.id && w != u2.id ==> r.users[w] == g.users[w])
  {
    var g2 := EnsureUser(EnsureUser(g, u1), u2);
    if w in g.users {
      assert g2.users[w] == g.users[w];
    } else if w == u1.id || w == u2.id {
      assert g2.users[w] == Isolated(if w == u1.id then u1 else u2);
    }
  }

  /** The effect of `add_suggestion`'s four steps on the whole graph. */
  lemma AddSuggestionEffect(g: Network, u1: User, u2: User)
    ensures var r := AddSuggestionSteps(g, u1, u2);
            r.users.Keys == g.users.Keys + {u1.id, u2.id} &&
            (forall w :: SuggOf(r, w) ==
               SuggOf(g, w) + (if w == u1.id then {u2.id} else {}) + (if w == u2.id then {u1.id} else {})) &&
            (forall w :: ReqOf(r, w) == ReqOf(g, w) && MatchesOf(r, w) == MatchesOf(g, w)) &&
            (forall w :: w in g.users ==> r.users[w].item == g.users[w].item) &&
            (u1.id !in g.users ==> r.users[u1.id].item == u1) &&
            (u2.id !in g.users && u2.id != u1.id ==> r.users[u2.id].item == u2) &&
            (forall w :: w in g.users && w != u1.id && w != u2.id ==> r.users[w] == g.users[w])
  {
    forall w {
      AddSuggestionAt(g, u1, u2, w);
    }
  }

  /**
   * `send_request(a, b)`: `a` stops having `b` as a suggestion and `b` records a request from
   * `a`. A missing vertex or suggestion is a `KeyError` in the source, hence the precondition.
   */
  function SendRequest(g: Network, a: int, b: int): (r: Network)
    requires a in g.users && b in g.users && b in g.users[a].suggestions
    ensures r.users.Keys == g.users.Keys
    ensures forall w :: w in g.users ==> r.users[w].item == g.users[w].item
    ensures b !in SuggOf(r, a) && a in ReqOf(r, b)
    ensures forall w :: SuggOf(r, w) == SuggOf(g, w) - (if w == a then {b} else {})
    ensures forall w :: ReqOf(r, w) == ReqOf(g, w) + (if w == b then {a} else {})
    ensures forall w :: MatchesOf(r, w) == MatchesOf(g, w)
  {
    var va := g.users[a];
    var g1 := Network(g.users[a := va.(suggestions := va.suggestions - {b})]);
    var vb := g1.users[b];
    Network(g1.users[b := vb.(requests := vb.requests + {a})])
  }

  /**
   * `accept_request(a, b)`: `a` accepts the request `b` sent it; the request is consumed and
   * each becomes a match of the other. A missing request is a `KeyError` in the source.
   */
  function AcceptRequest(g: Network, a: int, b: int): (r: Network)
    requires a in g.users && b in g.users && b in g.users[a].requests
    ensures r.users.Keys == g.users.Keys
    ensures forall w :: w in g.users ==> r.users[w].item == g.users[w].item
    ensures b !in ReqOf(r, a) && b in MatchesOf(r, a) && a in MatchesOf(r, b)
    ensures forall w :: SuggOf(r, w) == SuggOf(g, w)
    ensures forall w :: ReqOf(r, w) == ReqOf(g, w) - (if w == a then {b} else {})
    ensures forall w :: MatchesOf(r, w) ==
              MatchesOf(g, w) + (if w == a then {b} else {}) + (if w == b then {a} else {})
  {
    var va := g.users[a];
    var g1 := Network(g.users[a := va.(requests := va.requests - {b}, matches := va.matches + {b})]);
    var vb := g1.users[b];
    Network(g1.users[b := vb.(matches := vb.matches + {a})])
  }

  /**
   * `check_request(a, b)`: whether `b` has a pending request to `a` or is already matched
   * with it. It looks only at `a`'s sets.
   */
  function CheckRequest(g: Network, a: int, b: int): (r: bool)
    ensures r ==> a in g.users && b in g.users
    ensures r <==> a in g.users && b in g.users && b in ReqOf(g, a) + MatchesOf(g, a)
  {
    if a in g.users && b in g.users then
      if b in g.users[a].requests then true
      else if b in g.users[a].matches then true
      else false
    else false
  }

  /**
   * `check_suggestion(a, b)`, with its fallback to `check_request` when a vertex is missing. That
   * fallback can never answer true, so the answer is exactly "both exist and `b` is suggested to `a`".
   */
  function CheckSuggestion(g: Network, a: int, b: int): (r: bool)
    ensures r <==> a in g.users && b in g.users && b in g.users[a].suggestions
  {
    if a in g.users && b in g.users then b in g.users[a].suggestions
    else if CheckRequest(g, a, b) then true
    else false
  }

  /** `get_suggestions`: the ids suggested to a user, or `ValueError` for an unknown user. */
  function GetSuggestions(g: Network, id: int): (r: Result<set<int>>)
    ensures r.Err? <==> id !in g.users
    ensures r.Err? ==> r.error == ValueError
    ensures r.Ok? ==> r.value == SuggOf(g, id)
  {
    if id in g.users then Ok(g.users[id].suggestions) else Err(ValueError)
  }

  /** `_find_common_matches(m1, m2, avoid)`: the users matched with both, other than `avoid`. */
  function CommonMatches(g: Network, m1: int, m2: int, avoid: int): (r: set<int>)
    requires m1 in g.users && m2 in g.users
    ensures forall x :: x in r <==> x in MatchesOf(g, m1) && x in MatchesOf(g, m2) && x != avoid
  {
    var c := g.users[m1].matches * g.users[m2].matches;
    if avoid in c then c - {avoid} else c
  }
}

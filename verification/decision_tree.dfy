/**
 * The preference decision tree of app/decision_tree.py.
 *
 * An internal node splits on one category and keeps its partitions as an insertion-ordered
 * dict from choice to subtree; here that dict is a sequence of (key, subtree) pairs. A leaf
 * holds the users that share every choice on its root path. Each node remembers the choice
 * that led to it (`decision`), `Null` at the root.
 */
module DecisionTree {
  import opened Wrappers
  import opened Lists
  import opened Users
  import opened Preferences

  datatype Node =
    | Leaf(decision: Key, users: seq<User>)
    | Internal(category: string, decision: Key, children: seq<(Key, Node)>)

  /** One schema entry: a category and its ordered choices. */
  datatype Level = Level(category: string, choices: seq<Key>)

  /** The dict's keys in iteration order. */
  function KeysOf(cs: seq<(Key, Node)>): (ks: seq<Key>)
    ensures |ks| == |cs|
    ensures forall i :: 0 <= i < |cs| ==> ks[i] == cs[i].0
  {
    seq(|cs|, i requires 0 <= i < |cs| => cs[i].0)
  }

  /** `k in self.partitions`. */
  predicate HasChild(t: Node, k: Key) {
    t.Internal? && k in KeysOf(t.children)
  }

  /** Position of key `k` in the partitions dict. */
  function ChildIndex(t: Node, k: Key): (i: nat)
    requires HasChild(t, k)
    ensures i < |t.children| && t.children[i].0 == k
    ensures forall j :: 0 <= j < i ==> t.children[j].0 != k
  {
    IndexOf(KeysOf(t.children), k)
  }

  /** `self.partitions[k]`. */
  function Child(t: Node, k: Key): (c: Node)
    requires HasChild(t, k)
  {
    t.children[ChildIndex(t, k)].1
  }

  /** Dict assignment `partitions[k] = n`: an existing key keeps its place, a new key goes last. */
  function Put(cs: seq<(Key, Node)>, k: Key, n: Node): (r: seq<(Key, Node)>)
    ensures k in KeysOf(cs) ==> KeysOf(r) == KeysOf(cs)
    ensures k !in KeysOf(cs) ==> KeysOf(r) == KeysOf(cs) + [k]
    ensures (k, n) in r
    ensures forall p :: p in r ==> p in cs || p == (k, n)
  {
    if k in KeysOf(cs) then
      var i := IndexOf(KeysOf(cs), k);
      assert KeysOf(cs[i := (k, n)]) == KeysOf(cs);
      assert cs[i := (k, n)][i] == (k, n);
      cs[i := (k, n)]
    else
      assert KeysOf(cs + [(k, n)]) == KeysOf(cs) + [k];
      cs + [(k, n)]
  }

  // ---------------------------------------------------------------------------------------------
  // build_decision_tree
  // ---------------------------------------------------------------------------------------------

  /** The tree for `schema`, every leaf holding an empty user list; `decision` tags its root. */
  function Build(schema: seq<Level>, decision: Key): (t: Node)
    decreases |schema|, 1
  {
    if schema == [] then Leaf(decision, [])
    else Internal(schema[0].category, decision, Fill(schema, |schema[0].choices|))
  }

  /** The partitions dict after the loop has assigned the first `k` choices of the first level. */
  function Fill(schema: seq<Level>, k: nat): (cs: seq<(Key, Node)>)
    requires schema != [] && k <= |schema[0].choices|
    decreases |schema|, 0, k
  {
    if k == 0 then []
    else
      var choice := schema[0].choices[k - 1];
      Put(Fill(schema, k - 1), choice, Build(schema[1..], choice))
  }

  // ---------------------------------------------------------------------------------------------
  // The walk shared by add_user_to_tree_recursively, find_exact_matches_recursively and closest_helper
  // ---------------------------------------------------------------------------------------------

  /**
   * The key taken with `prefs` left to consume. With seven left (the gender level) the value read is
   * the gender-preference flag: if truthy the walk uses `gender.lower()`, otherwise `"any"`.
   */
  function StepKey(u: User, prefs: seq<Key>): (k: Key)
    requires |prefs| > 0
  {
    if |prefs| == 7 then (if Truthy(prefs[0]) then Text(Lower(u.gender)) else Text("any"))
    else prefs[0]
  }

  /** The keys the walk consumes, in order. */
  function StepKeys(u: User, prefs: seq<Key>): (ks: seq<Key>)
    ensures |ks| == |prefs|
  {
    if prefs == [] then [] else [StepKey(u, prefs)] + StepKeys(u, prefs[1..])
  }

  /** The walk reaches a leaf exactly when `prefs` runs out; otherwise the source raises. */
  predicate Fits(t: Node, u: User, prefs: seq<Key>)
    decreases |prefs|
  {
    if prefs == [] then t.Leaf?
    else HasChild(t, StepKey(u, prefs)) && Fits(Child(t, StepKey(u, prefs)), u, prefs[1..])
  }

  /** Plain dict descent along `path`: the node it ends at, if every key is present. */
  function Lookup(t: Node, path: seq<Key>): (r: Option<Node>)
    decreases |path|
  {
    if path == [] then Some(t)
    else if HasChild(t, path[0]) then Lookup(Child(t, path[0]), path[1..])
    else None
  }

  // ---------------------------------------------------------------------------------------------
  // add_user_to_tree
  // ---------------------------------------------------------------------------------------------

  function AddRec(t: Node, u: User, prefs: seq<Key>): (r: Node)
    requires Fits(t, u, prefs)
    decreases |prefs|
  {
    if prefs == [] then Leaf(t.decision, t.users + [u])
    else
      var k := StepKey(u, prefs);
      var j := ChildIndex(t, k);
      Internal(t.category, t.decision, t.children[j := (k, AddRec(t.children[j].1, u, prefs[1..]))])
  }

  function AddUserToTree(t: Node, u: User): (r: Node)
    requires Fits(t, u, UserPreferences(u))
  {
    AddRec(t, u, UserPreferences(u))
  }

  // ---------------------------------------------------------------------------------------------
  // find_exact_matches
  // ---------------------------------------------------------------------------------------------

  function ExactRec(t: Node, u: User, prefs: seq<Key>): (r: seq<User>)
    requires Fits(t, u, prefs)
    decreases |prefs|
  {
    if prefs == [] then RemoveFirst(t.users, u)
    else ExactRec(Child(t, StepKey(u, prefs)), u, prefs[1..])
  }

  function FindExactMatches(t: Node, u: User): (r: seq<User>)
    requires Fits(t, u, UserPreferences(u))
  {
    ExactRec(t, u, UserPreferences(u))
  }

  // ---------------------------------------------------------------------------------------------
  // find_closest_matches / closest_helper. `None` is a raised KeyError (missing child) or TypeError
  // (a walk that ends on an internal node, whose user list is None).
  // ---------------------------------------------------------------------------------------------

  function ClosestRec(t: Node, u: User, prefs: seq<Key>): (r: Option<seq<User>>)
    decreases |prefs|, 1, 0
  {
    if prefs == [] then
      if t.Leaf? then Some(RemoveFirst(t.users, u)) else None
    else
      var k := StepKey(u, prefs);
      if !HasChild(t, k) then None
      else
        match ClosestRec(Child(t, k), u, prefs[1..])
        case None => None
        case Some(m) =>
          if m != [] || |prefs| >= 7 then Some(m)
          else TrySiblings(t, 0, prefs[0], u, prefs[1..])
  }

  /**
   * The backtracking loop over the partitions from position `i` on, skipping the popped key:
   * the first non-empty result wins, and an exhausted loop yields the empty list.
   */
  function TrySiblings(t: Node, i: nat, skip: Key, u: User, rest: seq<Key>): (r: Option<seq<User>>)
    requires t.Internal? && i <= |t.children|
    decreases |rest| + 1, 0, |t.children| - i
  {
    if i == |t.children| then Some([])
    else if t.children[i].0 == skip then TrySiblings(t, i + 1, skip, u, rest)
    else
      match ClosestRec(t.children[i].1, u, rest)
      case None => None
      case Some(m) => if m != [] then Some(m) else TrySiblings(t, i + 1, skip, u, rest)
  }

  function FindClosestMatches(t: Node, u: User): (r: Option<seq<User>>) {
    ClosestRec(t, u, UserPreferences(u))
  }

  // ---------------------------------------------------------------------------------------------
  // count_leaves and find_all_leaves: a node without partitions counts as a leaf.
  // ---------------------------------------------------------------------------------------------

  function CountLeaves(t: Node): (n: nat)
    decreases t, 1
  {
    match t
    case Leaf(_, _) => 1
    case Internal(_, _, cs) => if |cs| == 0 then 1 else CountFrom(t, 0)
  }

  function CountFrom(t: Node, i: nat): (n: nat)
    requires t.Internal? && i <= |t.children|
    decreases t, 0, |t.children| - i
  {
    if i == |t.children| then 0 else CountLeaves(t.children[i].1) + CountFrom(t, i + 1)
  }

  function FindAllLeaves(t: Node): (ls: seq<seq<User>>)
    decreases t, 1
  {
    match t
    case Leaf(_, users) => [users]
    case Internal(_, _, cs) => if |cs| == 0 then [[]] else LeavesFrom(t, 0)
  }

  function LeavesFrom(t: Node, i: nat): (ls: seq<seq<User>>)
    requires t.Internal? && i <= |t.children|
    decreases t, 0, |t.children| - i
  {
    if i == |t.children| then [] else FindAllLeaves(t.children[i].1) + LeavesFrom(t, i + 1)
  }

  /** Every user stored in the tree, leaf by leaf. */
  function AllUsers(t: Node): (us: seq<User>) {
    Flatten(FindAllLeaves(t))
  }
}

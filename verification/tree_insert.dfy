/**
 * add_user_to_tree and find_exact_matches: both follow a user's preference path to one leaf;
 * adding appends to that leaf only, and exact matching reads it back without the querying user.
 */
module TreeInsert {
  import opened Wrappers
  import opened Lists
  import opened Users
  import opened Preferences
  import opened DecisionTree
  import opened TreeShape

  // ---------------------------------------------------------------------------------------------
  // The recursive walk against plain path lookup
  // ---------------------------------------------------------------------------------------------

  /** Walking eight values takes the first, then the gender key the second selects, then the rest. */
  lemma StepKeysOfEight(u: User, p: seq<Key>)
    requires |p| == 8
    ensures StepKeys(u, p) == [p[0], StepKey(u, p[1..])] + p[2..]
  {
    assert p[1..][1..] == p[2..];
    StepKeysBelowGender(u, p[2..]);
  }

  /** Walking a user's eight preference values takes exactly the keys of `PathOf`. */
  lemma StepKeysOfPreferences(u: User)
    ensures StepKeys(u, UserPreferences(u)) == PathOf(u)
  {
    var p := UserPreferences(u);
    StepKeysOfEight(u, p);
    assert StepKey(u, p[1..]) == GenderKey(u);
    assert p[2..] == LowerLevels(u);
  }

  /** Below the gender level the walk takes the preference values themselves. */
  lemma {:induction false} StepKeysBelowGender(u: User, prefs: seq<Key>)
    requires |prefs| < 7
    ensures StepKeys(u, prefs) == prefs
  {
    if prefs != [] {
      StepKeysBelowGender(u, prefs[1..]);
    }
  }

  /** The walk succeeds exactly when descending its keys ends at a leaf. */
  lemma {:induction false} FitsIffLeafAtPath(t: Node, u: User, prefs: seq<Key>)
    ensures Fits(t, u, prefs) <==> Lookup(t, StepKeys(u, prefs)).Some? && Lookup(t, StepKeys(u, prefs)).value.Leaf?
    decreases |prefs|
  {
    if prefs != [] {
      var k := StepKey(u, prefs);
      assert StepKeys(u, prefs)[0] == k && StepKeys(u, prefs)[1..] == StepKeys(u, prefs[1..]);
      if HasChild(t, k) {
        FitsIffLeafAtPath(Child(t, k), u, prefs[1..]);
      }
    }
  }

  /** The leaf the walk ends at. */
  function LeafAt(t: Node, u: User, prefs: seq<Key>): (l: Node)
    requires Fits(t, u, prefs)
    ensures l.Leaf?
    decreases |prefs|
  {
    if prefs == [] then t else LeafAt(Child(t, StepKey(u, prefs)), u, prefs[1..])
  }

  lemma {:induction false} LeafAtIsLookup(t: Node, u: User, prefs: seq<Key>)
    requires Fits(t, u, prefs)
    ensures Lookup(t, StepKeys(u, prefs)) == Some(LeafAt(t, u, prefs))
    decreases |prefs|
  {
    if prefs != [] {
      var k := StepKey(u, prefs);
      assert StepKeys(u, prefs)[0] == k && StepKeys(u, prefs)[1..] == StepKeys(u, prefs[1..]);
      LeafAtIsLookup(Child(t, k), u, prefs[1..]);
    }
  }

  /** A schema-shaped tree admits every walk whose keys are choices of their levels. */
  ghost predicate PathIn(path: seq<Key>, schema: seq<Level>) {
    |path| == |schema| && forall i :: 0 <= i < |path| ==> path[i] in schema[i].choices
  }

  lemma {:induction false} ConformsFits(t: Node, schema: seq<Level>, u: User, prefs: seq<Key>)
    requires Conforms(t, schema) && PathIn(StepKeys(u, prefs), schema)
    ensures Fits(t, u, prefs)
    decreases |prefs|
  {
    if prefs != [] {
      var k := StepKey(u, prefs);
      assert StepKeys(u, prefs)[0] == k && StepKeys(u, prefs)[1..] == StepKeys(u, prefs[1..]);
      assert k in Elems(Dedup(schema[0].choices));
      assert PathIn(StepKeys(u, prefs[1..]), schema[1..]) by {
        forall i | 0 <= i < |prefs| - 1
          ensures StepKeys(u, prefs[1..])[i] in schema[1..][i].choices
        {
          assert StepKeys(u, prefs)[i + 1] in schema[i + 1].choices;
        }
      }
      ConformsFits(Child(t, k), schema[1..], u, prefs[1..]);
    }
  }

  // ---------------------------------------------------------------------------------------------
  // find_exact_matches
  // ---------------------------------------------------------------------------------------------

  lemma {:induction false} ExactRecIsLeafMinusUser(t: Node, u: User, prefs: seq<Key>)
    requires Fits(t, u, prefs)
    ensures ExactRec(t, u, prefs) == RemoveFirst(LeafAt(t, u, prefs).users, u)
    decreases |prefs|
  {
    if prefs != [] {
      ExactRecIsLeafMinusUser(Child(t, StepKey(u, prefs)), u, prefs[1..]);
    }
  }

  /**
   * `find_exact_matches(u)` is the list at the leaf `PathOf(u)` leads to, without the first entry
   * equal to `u` (all of it when `u` is not there).
   */
  lemma FindExactMatchesSpec(t: Node, u: User)
    requires Fits(t, u, UserPreferences(u))
    ensures Lookup(t, PathOf(u)).Some? && Lookup(t, PathOf(u)).value.Leaf?
    ensures FindExactMatches(t, u) == RemoveFirst(Lookup(t, PathOf(u)).value.users, u)
  {
    StepKeysOfPreferences(u);
    LeafAtIsLookup(t, u, UserPreferences(u));
    ExactRecIsLeafMinusUser(t, u, UserPreferences(u));
  }

  // ---------------------------------------------------------------------------------------------
  // add_user_to_tree
  // ---------------------------------------------------------------------------------------------

  /** Same nodes, categories, decisions and keys; only leaf user lists may differ. */
  ghost predicate SameShape(t: Node, t': Node)
    decreases t
  {
    match t
    case Leaf(d, _) => t'.Leaf? && t'.decision == d
    case Internal(c, d, cs) =>
      t'.Internal? && t'.category == c && t'.decision == d && KeysOf(t'.children) == KeysOf(cs) &&
      forall i :: 0 <= i < |cs| ==> SameShape(cs[i].1, t'.children[i].1)
  }

  lemma {:induction false} SameShapeConforms(t: Node, t': Node, schema: seq<Level>)
    requires SameShape(t, t') && Conforms(t, schema)
    ensures Conforms(t', schema)
    decreases |schema|
  {
    if schema != [] {
      forall i | 0 <= i < |t'.children|
        ensures t'.children[i].1.decision == t'.children[i].0 && Conforms(t'.children[i].1, schema[1..])
      {
        assert KeysOf(t'.children)[i] == KeysOf(t.children)[i];
        SameShapeConforms(t.children[i].1, t'.children[i].1, schema[1..]);
      }
    }
  }

  lemma {:induction false} SameShapeWellFormed(t: Node, t': Node)
    requires SameShape(t, t') && WellFormed(t)
    ensures WellFormed(t')
    decreases t
  {
    if t.Internal? {
      forall i | 0 <= i < |t'.children|
        ensures WellFormed(t'.children[i].1)
      {
        SameShapeWellFormed(t.children[i].1, t'.children[i].1);
      }
    }
  }

  lemma {:induction false} SameShapeFits(t: Node, t': Node, v: User, prefs: seq<Key>)
    requires SameShape(t, t')
    ensures Fits(t, v, prefs) <==> Fits(t', v, prefs)
    decreases |prefs|
  {
    if prefs != [] {
      var k := StepKey(v, prefs);
      if HasChild(t, k) {
        assert ChildIndex(t', k) == ChildIndex(t, k);
        SameShapeFits(Child(t, k), Child(t', k), v, prefs[1..]);
      }
    }
  }

  lemma {:induction false} AddRecSameShape(t: Node, u: User, prefs: seq<Key>)
    requires Fits(t, u, prefs)
    ensures SameShape(t, AddRec(t, u, prefs))
    decreases |prefs|
  {
    if prefs != [] {
      var k := StepKey(u, prefs);
      var j := ChildIndex(t, k);
      var t' := AddRec(t, u, prefs);
      assert KeysOf(t'.children) == KeysOf(t.children);
      forall i | 0 <= i < |t.children|
        ensures SameShape(t.children[i].1, t'.children[i].1)
      {
        if i == j {
          AddRecSameShape(t.children[j].1, u, prefs[1..]);
        } else {
          SameShapeRefl(t.children[i].1);
        }
      }
    }
  }

  lemma {:induction false} SameShapeRefl(t: Node)
    ensures SameShape(t, t)
    decreases t
  {
    if t.Internal? {
      forall i | 0 <= i < |t.children|
        ensures SameShape(t.children[i].1, t.children[i].1)
      {
        SameShapeRefl(t.children[i].1);
      }
    }
  }

  /** The leaf the walk reaches gains `u` at its end and keeps its decision. */
  lemma {:induction false} AddRecLeaf(t: Node, u: User, prefs: seq<Key>)
    requires Fits(t, u, prefs)
    ensures Fits(AddRec(t, u, prefs), u, prefs)
    ensures LeafAt(AddRec(t, u, prefs), u, prefs) ==
              Leaf(LeafAt(t, u, prefs).decision, LeafAt(t, u, prefs).users + [u])
    decreases |prefs|
  {
    if prefs != [] {
      var k := StepKey(u, prefs);
      var t' := AddRec(t, u, prefs);
      AddRecLeaf(Child(t, k), u, prefs[1..]);
      assert KeysOf(t'.children) == KeysOf(t.children);
      assert ChildIndex(t', k) == ChildIndex(t, k);
    }
  }

  // ---------------------------------------------------------------------------------------------
  // Exactly one leaf list changes
  // ---------------------------------------------------------------------------------------------

  /** `b` is `a` with `u` appended to exactly one of its lists. */
  ghost predicate AppendedAt(a: seq<seq<User>>, b: seq<seq<User>>, u: User) {
    exists m :: 0 <= m < |a| && b == a[m := a[m] + [u]]
  }

  lemma AppendedAtLeft(a: seq<seq<User>>, a': seq<seq<User>>, c: seq<seq<User>>, u: User)
    requires AppendedAt(a, a', u)
    ensures AppendedAt(a + c, a' + c, u)
  {
    var m :| 0 <= m < |a| && a' == a[m := a[m] + [u]];
    assert a' + c == (a + c)[m := (a + c)[m] + [u]];
  }

  lemma AppendedAtRight(c: seq<seq<User>>, a: seq<seq<User>>, a': seq<seq<User>>, u: User)
    requires AppendedAt(a, a', u)
    ensures AppendedAt(c + a, c + a', u)
  {
    var m :| 0 <= m < |a| && a' == a[m := a[m] + [u]];
    assert c + a' == (c + a)[|c| + m := (c + a)[|c| + m] + [u]];
  }

  /** Replacing child `j` by one whose leaves gained `u` adds `u` to one leaf of the parent. */
  lemma {:induction false} LeavesFromReplaced(t: Node, t': Node, j: nat, i: nat, u: User)
    requires t.Internal? && t'.Internal? && |t'.children| == |t.children|
    requires j < |t.children| && i <= |t.children|
    requires forall k :: 0 <= k < |t.children| && k != j ==> t'.children[k] == t.children[k]
    requires AppendedAt(FindAllLeaves(t.children[j].1), FindAllLeaves(t'.children[j].1), u)
    ensures i <= j ==> AppendedAt(LeavesFrom(t, i), LeavesFrom(t', i), u)
    ensures j < i ==> LeavesFrom(t', i) == LeavesFrom(t, i)
    decreases |t.children| - i
  {
    if i < |t.children| {
      LeavesFromReplaced(t, t', j, i + 1, u);
      if i == j {
        AppendedAtLeft(FindAllLeaves(t.children[j].1), FindAllLeaves(t'.children[j].1), LeavesFrom(t, i + 1), u);
      } else if i < j {
        AppendedAtRight(FindAllLeaves(t.children[i].1), LeavesFrom(t, i + 1), LeavesFrom(t', i + 1), u);
      }
    }
  }

  lemma {:induction false} AddRecAppendsOneLeaf(t: Node, u: User, prefs: seq<Key>)
    requires Fits(t, u, prefs)
    ensures AppendedAt(FindAllLeaves(t), FindAllLeaves(AddRec(t, u, prefs)), u)
    decreases |prefs|
  {
    if prefs == [] {
      assert FindAllLeaves(AddRec(t, u, prefs)) == FindAllLeaves(t)[0 := FindAllLeaves(t)[0] + [u]];
    } else {
      var k := StepKey(u, prefs);
      var j := ChildIndex(t, k);
      var t' := AddRec(t, u, prefs);
      AddRecAppendsOneLeaf(t.children[j].1, u, prefs[1..]);
      LeavesFromReplaced(t, t', j, 0, u);
    }
  }

  /** Flattening around one middle list. */
  lemma FlattenAround(l: seq<seq<User>>, x: seq<User>, r: seq<seq<User>>)
    ensures Flatten(l + [x] + r) == Flatten(l) + x + Flatten(r)
  {
    FlattenAppend(l + [x], r);
    FlattenAppend(l, [x]);
    assert Flatten([x]) == x;
  }

  lemma UpdateAround(a: seq<seq<User>>, m: nat, x: seq<User>)
    requires m < |a|
    ensures a == a[..m] + [a[m]] + a[m + 1..]
    ensures a[m := x] == a[..m] + [x] + a[m + 1..]
  {
  }

  lemma MultisetAround(l: seq<User>, x: seq<User>, r: seq<User>, u: User)
    ensures multiset(l + (x + [u]) + r) == multiset(l + x + r) + multiset{u}
    ensures |l + (x + [u]) + r| == |l + x + r| + 1
  {
  }

  lemma FlattenAppendedAt(a: seq<seq<User>>, b: seq<seq<User>>, u: User)
    requires AppendedAt(a, b, u)
    ensures multiset(Flatten(b)) == multiset(Flatten(a)) + multiset{u}
    ensures |Flatten(b)| == |Flatten(a)| + 1
  {
    var m :| 0 <= m < |a| && b == a[m := a[m] + [u]];
    var l, r := a[..m], a[m + 1..];
    UpdateAround(a, m, a[m] + [u]);
    FlattenAround(l, a[m], r);
    FlattenAround(l, a[m] + [u], r);
    MultisetAround(Flatten(l), a[m], Flatten(r), u);
  }

  /**
   * `add_user_to_tree(u)`: the leaf at `PathOf(u)` gains `u` at its end, every other entry of the
   * leaf list is unchanged, the tree keeps its shape, and the tree holds one more user.
   * `AddUserToTreeFrame` states the same frame by path.
   */
  lemma AddUserToTreeSpec(t: Node, u: User)
    requires Fits(t, u, UserPreferences(u))
    ensures Lookup(t, PathOf(u)).Some? && Lookup(t, PathOf(u)).value.Leaf?
    ensures Lookup(AddUserToTree(t, u), PathOf(u)) ==
              Some(Leaf(Lookup(t, PathOf(u)).value.decision, Lookup(t, PathOf(u)).value.users + [u]))
    ensures AppendedAt(FindAllLeaves(t), FindAllLeaves(AddUserToTree(t, u)), u)
    ensures multiset(AllUsers(AddUserToTree(t, u))) == multiset(AllUsers(t)) + multiset{u}
    ensures |AllUsers(AddUserToTree(t, u))| == |AllUsers(t)| + 1
    ensures SameShape(t, AddUserToTree(t, u))
  {
    var p := UserPreferences(u);
    StepKeysOfPreferences(u);
    LeafAtIsLookup(t, u, p);
    AddRecLeaf(t, u, p);
    LeafAtIsLookup(AddRec(t, u, p), u, p);
    AddRecAppendsOneLeaf(t, u, p);
    FlattenAppendedAt(FindAllLeaves(t), FindAllLeaves(AddRec(t, u, p)), u);
    AddRecSameShape(t, u, p);
  }

  /** Adding a user keeps a schema-shaped tree schema-shaped, with the same leaf count. */
  lemma AddUserKeepsShape(t: Node, u: User, schema: seq<Level>)
    requires Fits(t, u, UserPreferences(u)) && Conforms(t, schema)
    ensures Conforms(AddUserToTree(t, u), schema)
    ensures WellFormed(AddUserToTree(t, u))
    ensures CountLeaves(AddUserToTree(t, u)) == CountLeaves(t)
  {
    var t' := AddUserToTree(t, u);
    AddUserToTreeSpec(t, u);
    SameShapeConforms(t, t', schema);
    ConformsWellFormed(t', schema);
    LeafListMatchesCount(t);
    LeafListMatchesCount(t');
  }

  // ---------------------------------------------------------------------------------------------
  // Round trip
  // ---------------------------------------------------------------------------------------------

  /**
   * After `add_user_to_tree(u)`, every other user `v` on the same path finds `u` at the end of its
   * exact matches, after what it found before.
   */
  lemma AddThenFindExact(t: Node, u: User, v: User)
    requires Fits(t, u, UserPreferences(u))
    requires PathOf(v) == PathOf(u) && v != u
    ensures Fits(t, v, UserPreferences(v)) && Fits(AddUserToTree(t, u), v, UserPreferences(v))
    ensures FindExactMatches(AddUserToTree(t, u), v) == FindExactMatches(t, v) + [u]
    ensures u in FindExactMatches(AddUserToTree(t, u), v)
  {
    var t' := AddUserToTree(t, u);
    StepKeysOfPreferences(u);
    StepKeysOfPreferences(v);
    FitsIffLeafAtPath(t, u, UserPreferences(u));
    FitsIffLeafAtPath(t, v, UserPreferences(v));
    AddUserToTreeSpec(t, u);
    SameShapeFits(t, t', v, UserPreferences(v));
    FindExactMatchesSpec(t, v);
    FindExactMatchesSpec(t', v);
    RemoveFirstAppend(Lookup(t, PathOf(u)).value.users, u, v);
  }

  /** A user added once, and not already in its leaf, does not find itself. */
  lemma AddThenFindSelf(t: Node, u: User)
    requires Fits(t, u, UserPreferences(u))
    requires u !in LeafAt(t, u, UserPreferences(u)).users
    ensures Fits(AddUserToTree(t, u), u, UserPreferences(u))
    ensures FindExactMatches(AddUserToTree(t, u), u) == FindExactMatches(t, u)
  {
    var t' := AddUserToTree(t, u);
    AddUserToTreeSpec(t, u);
    SameShapeFits(t, t', u, UserPreferences(u));
    FindExactMatchesSpec(t, u);
    FindExactMatchesSpec(t', u);
    StepKeysOfPreferences(u);
    LeafAtIsLookup(t, u, UserPreferences(u));
    RemoveFirstAppendSelf(LeafAt(t, u, UserPreferences(u)).users, u);
  }

  // ---------------------------------------------------------------------------------------------
  // The partition invariant: a leaf holds only the users whose own path leads to it
  // ---------------------------------------------------------------------------------------------

  /** Descending `p` ends at a leaf. */
  predicate LeafAtPath(t: Node, p: seq<Key>) {
    Lookup(t, p).Some? && Lookup(t, p).value.Leaf?
  }

  /** Every user stored at the leaf a path leads to has that path as its `PathOf`. */
  ghost predicate Partitioned(t: Node) {
    forall p, v :: LeafAtPath(t, p) && v in Lookup(t, p).value.users ==> PathOf(v) == p
  }

  /** Every leaf a path reaches in a freshly built tree is empty. */
  lemma {:induction false} BuildLookupEmpty(schema: seq<Level>, decision: Key, p: seq<Key>)
    ensures LeafAtPath(Build(schema, decision), p) ==> Lookup(Build(schema, decision), p).value.users == []
    decreases |p|
  {
    var t := Build(schema, decision);
    if p != [] && HasChild(t, p[0]) {
      var j := ChildIndex(t, p[0]);
      FillShape(schema, |schema[0].choices|);
      assert t.children[j] in t.children;
      BuildLookupEmpty(schema[1..], p[0], p[1..]);
    }
  }

  /** `build_decision_tree` starts out partitioned: it holds nobody. */
  lemma BuildPartitioned(schema: seq<Level>, decision: Key)
    ensures Partitioned(Build(schema, decision))
  {
    forall p | LeafAtPath(Build(schema, decision), p)
      ensures Lookup(Build(schema, decision), p).value.users == []
    {
      BuildLookupEmpty(schema, decision, p);
    }
  }

  /**
   * Off the walk's path nothing moves: a path that is not a prefix of the walked keys reaches the
   * same node (or none) before and after, and a proper prefix of them reaches an internal node
   * both times.
   */
  lemma {:induction false} AddRecLookup(t: Node, u: User, prefs: seq<Key>, p: seq<Key>)
    requires Fits(t, u, prefs)
    ensures !(p <= StepKeys(u, prefs)) ==> Lookup(AddRec(t, u, prefs), p) == Lookup(t, p)
    ensures p < StepKeys(u, prefs) ==>
              Lookup(t, p).Some? && Lookup(t, p).value.Internal? &&
              Lookup(AddRec(t, u, prefs), p).Some? && Lookup(AddRec(t, u, prefs), p).value.Internal?
    decreases |prefs|
  {
    if prefs != [] && p != [] {
      var k := StepKey(u, prefs);
      var path := StepKeys(u, prefs);
      var t' := AddRec(t, u, prefs);
      assert path[0] == k && path[1..] == StepKeys(u, prefs[1..]);
      assert KeysOf(t'.children) == KeysOf(t.children);
      if HasChild(t, p[0]) {
        assert ChildIndex(t', p[0]) == ChildIndex(t, p[0]);
        if p[0] == k {
          assert p <= path <==> p[1..] <= path[1..];
          assert p < path <==> p[1..] < path[1..];
          AddRecLookup(Child(t, k), u, prefs[1..], p[1..]);
        } else {
          assert !(p <= path);
        }
      }
    }
  }

  /**
   * `add_user_to_tree(u)` changes no leaf but the one at `PathOf(u)`: every other path reaches a
   * leaf before exactly when it does after, and then the same leaf.
   */
  lemma AddUserToTreeFrame(t: Node, u: User)
    requires Fits(t, u, UserPreferences(u))
    ensures forall p :: !(p <= PathOf(u)) ==> Lookup(AddUserToTree(t, u), p) == Lookup(t, p)
    ensures forall p :: p != PathOf(u) ==>
              (LeafAtPath(AddUserToTree(t, u), p) <==> LeafAtPath(t, p)) &&
              (LeafAtPath(t, p) ==> Lookup(AddUserToTree(t, u), p) == Lookup(t, p))
  {
    StepKeysOfPreferences(u);
    forall p
      ensures !(p <= PathOf(u)) ==> Lookup(AddUserToTree(t, u), p) == Lookup(t, p)
      ensures p < PathOf(u) ==> !LeafAtPath(AddUserToTree(t, u), p) && !LeafAtPath(t, p)
    {
      AddRecLookup(t, u, UserPreferences(u), p);
    }
  }

  /** Adding a user at its own path keeps the tree partitioned. */
  lemma AddUserKeepsPartition(t: Node, u: User)
    requires Fits(t, u, UserPreferences(u)) && Partitioned(t)
    ensures Partitioned(AddUserToTree(t, u))
  {
    var t' := AddUserToTree(t, u);
    AddUserToTreeSpec(t, u);
    AddUserToTreeFrame(t, u);
    forall p, v | LeafAtPath(t', p) && v in Lookup(t', p).value.users
      ensures PathOf(v) == p
    {
      if p == PathOf(u) {
        if v != u {
          assert v in Lookup(t, p).value.users;
        }
      } else {
        assert Lookup(t', p) == Lookup(t, p);
      }
    }
  }

  /** On a partitioned tree every exact match of `u` shares `u`'s path. */
  lemma ExactMatchesSharePath(t: Node, u: User)
    requires Fits(t, u, UserPreferences(u)) && Partitioned(t)
    ensures forall v :: v in FindExactMatches(t, u) ==> PathOf(v) == PathOf(u)
  {
    FindExactMatchesSpec(t, u);
    var us := Lookup(t, PathOf(u)).value.users;
    RemoveFirstMultiset(us, u);
    forall v | v in FindExactMatches(t, u)
      ensures PathOf(v) == PathOf(u)
    {
      assert v in multiset(RemoveFirst(us, u));
      assert v in us;
    }
  }
}

/**
 * find_closest_matches: the exact walk with backtracking. Once a subtree yields nothing, the
 * remaining partitions of that node are tried in dict order and the first non-empty answer
 * wins; the rent-band and gender levels never backtrack.
 */
module TreeClosest {
  import opened Wrappers
  import opened Lists
  import opened Users
  import opened Preferences
  import opened DecisionTree
  import opened TreeShape
  import opened TreeInsert

  /** Some leaf list of `leaves`, less the first entry equal to `u`, is `r`. */
  ghost predicate FromLeaf(r: seq<User>, leaves: seq<seq<User>>, u: User) {
    exists l :: l in leaves && r == RemoveFirst(l, u)
  }

  /** Every leaf list of `leaves` is empty once the first entry equal to `u` is taken out. */
  ghost predicate AllEmptyBut(leaves: seq<seq<User>>, u: User) {
    forall l :: l in leaves ==> RemoveFirst(l, u) == []
  }

  // ---------------------------------------------------------------------------------------------
  // Agreement with the exact walk
  // ---------------------------------------------------------------------------------------------

  /** Where the exact walk finds someone, the backtracking walk returns the very same list. */
  lemma {:induction false} ClosestAgreesWithExact(t: Node, u: User, prefs: seq<Key>)
    requires Fits(t, u, prefs) && ExactRec(t, u, prefs) != []
    ensures ClosestRec(t, u, prefs) == Some(ExactRec(t, u, prefs))
    decreases |prefs|
  {
    if prefs != [] {
      ClosestAgreesWithExact(Child(t, StepKey(u, prefs)), u, prefs[1..]);
    }
  }

  /** `find_closest_matches(u)` equals `find_exact_matches(u)` whenever the latter is non-empty. */
  lemma FindClosestAgreesWithExact(t: Node, u: User)
    requires Fits(t, u, UserPreferences(u)) && FindExactMatches(t, u) != []
    ensures FindClosestMatches(t, u) == Some(FindExactMatches(t, u))
  {
    ClosestAgreesWithExact(t, u, UserPreferences(u));
  }

  // ---------------------------------------------------------------------------------------------
  // Every answer is one leaf of the subtree searched
  // ---------------------------------------------------------------------------------------------

  lemma {:induction false} ClosestFromLeaf(t: Node, u: User, prefs: seq<Key>)
    requires ClosestRec(t, u, prefs).Some?
    ensures FromLeaf(ClosestRec(t, u, prefs).value, FindAllLeaves(t), u)
    decreases |prefs|, 1
  {
    if prefs == [] {
      assert t.users in FindAllLeaves(t);
    } else {
      var k := StepKey(u, prefs);
      var j := ChildIndex(t, k);
      var m := ClosestRec(Child(t, k), u, prefs[1..]).value;
      ClosestFromLeaf(Child(t, k), u, prefs[1..]);
      var l :| l in FindAllLeaves(t.children[j].1) && m == RemoveFirst(l, u);
      LeavesFromCollects(t, 0, j, l);
      if !(m != [] || |prefs| >= 7) && TrySiblings(t, 0, prefs[0], u, prefs[1..]).value != [] {
        SiblingsFromLeaf(t, 0, prefs[0], u, prefs[1..]);
      }
    }
  }

  lemma {:induction false} SiblingsFromLeaf(t: Node, i: nat, skip: Key, u: User, rest: seq<Key>)
    requires t.Internal? && i <= |t.children|
    requires TrySiblings(t, i, skip, u, rest).Some? && TrySiblings(t, i, skip, u, rest).value != []
    ensures FromLeaf(TrySiblings(t, i, skip, u, rest).value, LeavesFrom(t, i), u)
    decreases |rest| + 1, 0, |t.children| - i
  {
    var r := TrySiblings(t, i, skip, u, rest).value;
    if t.children[i].0 == skip || ClosestRec(t.children[i].1, u, rest).value == [] {
      SiblingsFromLeaf(t, i + 1, skip, u, rest);
      var l :| l in LeavesFrom(t, i + 1) && r == RemoveFirst(l, u);
      assert l in LeavesFrom(t, i);
    } else {
      ClosestFromLeaf(t.children[i].1, u, rest);
      var l :| l in FindAllLeaves(t.children[i].1) && r == RemoveFirst(l, u);
      assert l in LeavesFrom(t, i);
    }
  }

  // ---------------------------------------------------------------------------------------------
  // The empty answer means every leaf searched is empty
  // ---------------------------------------------------------------------------------------------

  /** An exhausted backtracking loop tried every other partition and each yielded nothing. */
  lemma {:induction false} SiblingsEmpty(t: Node, i: nat, skip: Key, u: User, rest: seq<Key>)
    requires t.Internal? && i <= |t.children|
    requires TrySiblings(t, i, skip, u, rest) == Some([])
    ensures forall j :: i <= j < |t.children| && t.children[j].0 != skip ==>
              ClosestRec(t.children[j].1, u, rest) == Some([])
    decreases |t.children| - i
  {
    if i < |t.children| {
      SiblingsEmpty(t, i + 1, skip, u, rest);
    }
  }

  /**
   * Below the gender level, backtracking gives up only after every leaf of the subtree proved
   * empty once `u` is left out.
   */
  lemma {:induction false} ClosestEmptyMeansAllEmpty(t: Node, u: User, prefs: seq<Key>)
    requires WellFormed(t) && |prefs| <= 6
    requires ClosestRec(t, u, prefs) == Some([])
    ensures AllEmptyBut(FindAllLeaves(t), u)
    decreases |prefs|
  {
    if prefs != [] {
      var k := prefs[0];
      var j0 := ChildIndex(t, k);
      SiblingsEmpty(t, 0, k, u, prefs[1..]);
      forall l | l in FindAllLeaves(t)
        ensures RemoveFirst(l, u) == []
      {
        LeavesFromMember(t, 0, l);
        var j :| 0 <= j < |t.children| && l in FindAllLeaves(t.children[j].1);
        if t.children[j].0 == k {
          assert KeysOf(t.children)[j] == KeysOf(t.children)[j0];
          assert j == j0;
        }
        ClosestEmptyMeansAllEmpty(t.children[j].1, u, prefs[1..]);
      }
    }
  }

  /** Below the gender level: the answer is empty exactly when every leaf searched is. */
  lemma ClosestEmptyIff(t: Node, u: User, prefs: seq<Key>)
    requires WellFormed(t) && |prefs| <= 6 && ClosestRec(t, u, prefs).Some?
    ensures ClosestRec(t, u, prefs).value == [] <==> AllEmptyBut(FindAllLeaves(t), u)
  {
    ClosestFromLeaf(t, u, prefs);
    if ClosestRec(t, u, prefs).value == [] {
      ClosestEmptyMeansAllEmpty(t, u, prefs);
    }
  }

  // ---------------------------------------------------------------------------------------------
  // Order of the backtracking loop
  // ---------------------------------------------------------------------------------------------

  /**
   * A non-empty answer of the loop is that of the first partition, in dict order and skipping
   * the popped key, whose search is non-empty; every partition tried before it yielded nothing.
   */
  lemma {:induction false} SiblingsFirstNonEmpty(t: Node, i: nat, skip: Key, u: User, rest: seq<Key>)
    requires t.Internal? && i <= |t.children|
    requires TrySiblings(t, i, skip, u, rest).Some? && TrySiblings(t, i, skip, u, rest).value != []
    ensures exists j :: i <= j < |t.children| && t.children[j].0 != skip &&
              ClosestRec(t.children[j].1, u, rest) == TrySiblings(t, i, skip, u, rest) &&
              forall k :: i <= k < j && t.children[k].0 != skip ==> ClosestRec(t.children[k].1, u, rest) == Some([])
    decreases |t.children| - i
  {
    if t.children[i].0 == skip || ClosestRec(t.children[i].1, u, rest).value == [] {
      SiblingsFirstNonEmpty(t, i + 1, skip, u, rest);
    }
  }

  // ---------------------------------------------------------------------------------------------
  // On a schema-shaped tree the search never raises
  // ---------------------------------------------------------------------------------------------

  lemma PathInTail(path: seq<Key>, schema: seq<Level>)
    requires PathIn(path, schema) && path != []
    ensures PathIn(path[1..], schema[1..])
  {
    forall i | 0 <= i < |path| - 1
      ensures path[1..][i] in schema[1..][i].choices
    {
      assert path[i + 1] in schema[i + 1].choices;
    }
  }

  lemma {:induction false} ClosestDefined(t: Node, schema: seq<Level>, u: User, prefs: seq<Key>)
    requires Conforms(t, schema) && PathIn(StepKeys(u, prefs), schema)
    ensures ClosestRec(t, u, prefs).Some?
    decreases |prefs|, 1
  {
    if prefs != [] {
      var k := StepKey(u, prefs);
      assert StepKeys(u, prefs)[0] == k && StepKeys(u, prefs)[1..] == StepKeys(u, prefs[1..]);
      assert k in Elems(Dedup(schema[0].choices));
      PathInTail(StepKeys(u, prefs), schema);
      ClosestDefined(Child(t, k), schema[1..], u, prefs[1..]);
      SiblingsDefined(t, schema, 0, prefs[0], u, prefs[1..]);
    }
  }

  lemma {:induction false} SiblingsDefined(t: Node, schema: seq<Level>, i: nat, skip: Key, u: User, rest: seq<Key>)
    requires schema != [] && Conforms(t, schema) && i <= |t.children|
    requires PathIn(StepKeys(u, rest), schema[1..])
    ensures TrySiblings(t, i, skip, u, rest).Some?
    decreases |rest| + 1, 0, |t.children| - i
  {
    if i < |t.children| {
      ClosestDefined(t.children[i].1, schema[1..], u, rest);
      SiblingsDefined(t, schema, i + 1, skip, u, rest);
    }
  }

  // ---------------------------------------------------------------------------------------------
  // find_closest_matches on a user
  // ---------------------------------------------------------------------------------------------

  lemma WellFormedChild(t: Node, k: Key)
    requires WellFormed(t) && HasChild(t, k)
    ensures WellFormed(Child(t, k))
  {
  }

  /** With seven or more keys left the walk never backtracks: the answer is the child's. */
  lemma ClosestNoBacktrack(t: Node, u: User, prefs: seq<Key>)
    requires |prefs| >= 7 && ClosestRec(t, u, prefs).Some?
    ensures HasChild(t, StepKey(u, prefs))
    ensures ClosestRec(t, u, prefs) == ClosestRec(Child(t, StepKey(u, prefs)), u, prefs[1..])
  {
  }

  lemma LookupTwo(t: Node, a: Key, b: Key)
    requires HasChild(t, a) && HasChild(Child(t, a), b)
    ensures Lookup(t, [a, b]) == Some(Child(Child(t, a), b))
  {
    assert [a, b][1..] == [b];
    assert [b][1..] == [];
    assert Lookup(Child(t, a), [b]) == Lookup(Child(Child(t, a), b), []);
  }

  /** The subtree under a user's rent band and gender key. */
  lemma ClosestTopLevels(t: Node, u: User)
    requires FindClosestMatches(t, u).Some?
    ensures Lookup(t, PathOf(u)[..2]).Some?
    ensures FindClosestMatches(t, u) == ClosestRec(Lookup(t, PathOf(u)[..2]).value, u, UserPreferences(u)[2..])
  {
    var p := UserPreferences(u);
    var a := PathOf(u)[0];
    var b := PathOf(u)[1];
    assert StepKey(u, p) == a;
    ClosestNoBacktrack(t, u, p);
    assert StepKey(u, p[1..]) == b;
    ClosestNoBacktrack(Child(t, a), u, p[1..]);
    assert p[1..][1..] == p[2..];
    assert PathOf(u)[..2] == [a, b];
    LookupTwo(t, a, b);
  }

  /**
   * `find_closest_matches(u)` searches only the subtree under `u`'s rent band and gender key
   * (no backtracking at those two levels), answers with one leaf list of it less `u`, and answers
   * with the empty list only when every leaf there is empty once `u` is left out.
   */
  lemma FindClosestMatchesSpec(t: Node, u: User, r: seq<User>)
    requires FindClosestMatches(t, u) == Some(r)
    ensures Lookup(t, PathOf(u)[..2]).Some?
    ensures ClosestRec(Lookup(t, PathOf(u)[..2]).value, u, UserPreferences(u)[2..]) == Some(r)
    ensures FromLeaf(r, FindAllLeaves(Lookup(t, PathOf(u)[..2]).value), u)
    ensures WellFormed(t) ==> (r == [] <==> AllEmptyBut(FindAllLeaves(Lookup(t, PathOf(u)[..2]).value), u))
  {
    ClosestTopLevels(t, u);
    var a := PathOf(u)[0];
    var b := PathOf(u)[1];
    assert PathOf(u)[..2] == [a, b];
    LookupTwo(t, a, b);
    var sub := Lookup(t, PathOf(u)[..2]).value;
    var rest := UserPreferences(u)[2..];
    ClosestFromLeaf(sub, u, rest);
    if WellFormed(t) {
      WellFormedChild(t, a);
      WellFormedChild(Child(t, a), b);
      ClosestEmptyIff(sub, u, rest);
    }
  }

  /** On a schema-shaped tree whose levels offer each of `u`'s path keys, the search never raises. */
  lemma FindClosestDefined(t: Node, schema: seq<Level>, u: User)
    requires Conforms(t, schema) && PathIn(PathOf(u), schema)
    ensures FindClosestMatches(t, u).Some?
  {
    StepKeysOfPreferences(u);
    ClosestDefined(t, schema, u, UserPreferences(u));
  }
}

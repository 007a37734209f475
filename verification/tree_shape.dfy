/**
 * Shape facts about the preference tree: what build_decision_tree produces, how count_leaves
 * and find_all_leaves agree, and how many leaves a schema yields.
 */
module TreeShape {
  import opened Lists
  import opened Users
  import opened Preferences
  import opened DecisionTree

  /** Partition keys are distinct at every internal node, as dict keys are. */
  ghost predicate WellFormed(t: Node)
    decreases t
  {
    t.Internal? ==>
      Distinct(KeysOf(t.children)) &&
      forall i :: 0 <= i < |t.children| ==> WellFormed(t.children[i].1)
  }

  /**
   * `t` has exactly the shape `Build(schema, _)` produces, whatever its leaves hold: each level
   * splits on the schema's category, one child per distinct choice in first-occurrence order,
   * and every child records the choice that leads to it.
   */
  ghost predicate Conforms(t: Node, schema: seq<Level>)
    decreases |schema|
  {
    if schema == [] then t.Leaf?
    else
      t.Internal? && t.category == schema[0].category &&
      KeysOf(t.children) == Dedup(schema[0].choices) &&
      forall i :: 0 <= i < |t.children| ==>
        t.children[i].1.decision == t.children[i].0 && Conforms(t.children[i].1, schema[1..])
  }

  /** The number of distinct choices at each level. */
  function Fanouts(schema: seq<Level>): (r: seq<nat>)
    ensures |r| == |schema|
  {
    seq(|schema|, i requires 0 <= i < |schema| => |Dedup(schema[i].choices)|)
  }

  /** Every level offers at least one choice. */
  predicate NoEmptyLevel(schema: seq<Level>) {
    forall i :: 0 <= i < |schema| ==> |schema[i].choices| > 0
  }

  // ---------------------------------------------------------------------------------------------
  // Membership in find_all_leaves
  // ---------------------------------------------------------------------------------------------

  /** A leaf list collected from position `i` on comes from one of those children. */
  lemma {:induction false} LeavesFromMember(t: Node, i: nat, l: seq<User>)
    requires t.Internal? && i <= |t.children|
    requires l in LeavesFrom(t, i)
    ensures exists j :: i <= j < |t.children| && l in FindAllLeaves(t.children[j].1)
    decreases |t.children| - i
  {
    if l !in FindAllLeaves(t.children[i].1) {
      LeavesFromMember(t, i + 1, l);
    }
  }

  /** Every leaf list of a child from position `i` on is collected. */
  lemma {:induction false} LeavesFromCollects(t: Node, i: nat, j: nat, l: seq<User>)
    requires t.Internal? && i <= j < |t.children|
    requires l in FindAllLeaves(t.children[j].1)
    ensures l in LeavesFrom(t, i)
    decreases j - i
  {
    if i < j {
      LeavesFromCollects(t, i + 1, j, l);
    }
  }

  // ---------------------------------------------------------------------------------------------
  // find_all_leaves lists one entry per leaf that count_leaves counts
  // ---------------------------------------------------------------------------------------------

  lemma {:induction false} LeafListMatchesCount(t: Node)
    ensures |FindAllLeaves(t)| == CountLeaves(t)
    decreases t, 1
  {
    if t.Internal? && |t.children| > 0 {
      LeafListMatchesCountFrom(t, 0);
    }
  }

  lemma {:induction false} LeafListMatchesCountFrom(t: Node, i: nat)
    requires t.Internal? && i <= |t.children|
    ensures |LeavesFrom(t, i)| == CountFrom(t, i)
    decreases t, 0, |t.children| - i
  {
    if i < |t.children| {
      LeafListMatchesCount(t.children[i].1);
      LeafListMatchesCountFrom(t, i + 1);
    }
  }

  // ---------------------------------------------------------------------------------------------
  // build_decision_tree
  // ---------------------------------------------------------------------------------------------

  /** The partitions loop keeps the distinct choices seen so far, each mapped to its own subtree. */
  lemma {:induction false} FillShape(schema: seq<Level>, k: nat)
    requires schema != [] && k <= |schema[0].choices|
    ensures KeysOf(Fill(schema, k)) == Dedup(schema[0].choices[..k])
    ensures forall p :: p in Fill(schema, k) ==> p.1 == Build(schema[1..], p.0)
  {
    if k > 0 {
      FillShape(schema, k - 1);
      var s := schema[0].choices[..k];
      assert s[..|s| - 1] == schema[0].choices[..k - 1];
    }
  }

  /** `build_decision_tree` yields a tree of the schema's shape whose root records `decision`. */
  lemma {:induction false} BuildConforms(schema: seq<Level>, decision: Key)
    ensures Conforms(Build(schema, decision), schema)
    ensures Build(schema, decision).decision == decision
    decreases |schema|
  {
    if schema != [] {
      var cs := Fill(schema, |schema[0].choices|);
      FillShape(schema, |schema[0].choices|);
      assert schema[0].choices[..|schema[0].choices|] == schema[0].choices;
      forall i | 0 <= i < |cs|
        ensures cs[i].1.decision == cs[i].0 && Conforms(cs[i].1, schema[1..])
      {
        assert cs[i] in cs;
        BuildConforms(schema[1..], cs[i].0);
      }
    }
  }

  /** With distinct choices, the root has exactly one child per choice, keyed by it, in choice order. */
  lemma BuildChildren(schema: seq<Level>, decision: Key)
    requires schema != [] && Distinct(schema[0].choices)
    ensures Build(schema, decision).Internal?
    ensures |Build(schema, decision).children| == |schema[0].choices|
    ensures forall i :: 0 <= i < |schema[0].choices| ==>
              Build(schema, decision).children[i] == (schema[0].choices[i], Build(schema[1..], schema[0].choices[i]))
  {
    var cs := Fill(schema, |schema[0].choices|);
    FillShape(schema, |schema[0].choices|);
    assert schema[0].choices[..|schema[0].choices|] == schema[0].choices;
    DedupOfDistinct(schema[0].choices);
    forall i | 0 <= i < |schema[0].choices|
      ensures cs[i] == (schema[0].choices[i], Build(schema[1..], schema[0].choices[i]))
    {
      assert cs[i].0 == KeysOf(cs)[i];
      assert cs[i] in cs;
    }
  }

  /** Every leaf of a freshly built tree holds the empty list. */
  lemma {:induction false} BuildLeavesEmpty(schema: seq<Level>, decision: Key)
    ensures forall l :: l in FindAllLeaves(Build(schema, decision)) ==> l == []
    decreases |schema|
  {
    var t := Build(schema, decision);
    if schema != [] && |t.children| > 0 {
      var cs := t.children;
      FillShape(schema, |schema[0].choices|);
      forall l | l in FindAllLeaves(t)
        ensures l == []
      {
        LeavesFromMember(t, 0, l);
        var j :| 0 <= j < |cs| && l in FindAllLeaves(cs[j].1);
        assert cs[j] in cs;
        BuildLeavesEmpty(schema[1..], cs[j].0);
      }
    }
  }

  // ---------------------------------------------------------------------------------------------
  // count_leaves of a schema-shaped tree
  // ---------------------------------------------------------------------------------------------

  /** A schema-shaped tree has as many leaves as the product of the per-level distinct choice counts. */
  lemma {:induction false} ConformsLeafCount(t: Node, schema: seq<Level>)
    requires Conforms(t, schema) && NoEmptyLevel(schema)
    ensures CountLeaves(t) == Product(Fanouts(schema))
    decreases |schema|
  {
    if schema != [] {
      assert Fanouts(schema) == [|Dedup(schema[0].choices)|] + Fanouts(schema[1..]);
      assert schema[0].choices[0] in Elems(schema[0].choices);
      assert |t.children| == |Dedup(schema[0].choices)| > 0;
      ConformsCountFrom(t, schema, 0);
    }
  }

  lemma NoEmptyLevelTail(schema: seq<Level>)
    requires schema != [] && NoEmptyLevel(schema)
    ensures NoEmptyLevel(schema[1..])
  {
    forall j | 0 <= j < |schema[1..]|
      ensures |schema[1..][j].choices| > 0
    {
      assert schema[1..][j] == schema[j + 1];
    }
  }

  lemma {:induction false} ConformsCountFrom(t: Node, schema: seq<Level>, i: nat)
    requires schema != [] && Conforms(t, schema) && NoEmptyLevel(schema)
    requires i <= |t.children|
    ensures CountFrom(t, i) == (|t.children| - i) * Product(Fanouts(schema[1..]))
    decreases |schema|, |t.children| - i
  {
    if i < |t.children| {
      var p := Product(Fanouts(schema[1..]));
      var n := |t.children| - i;
      assert Conforms(t.children[i].1, schema[1..]);
      NoEmptyLevelTail(schema);
      ConformsLeafCount(t.children[i].1, schema[1..]);
      ConformsCountFrom(t, schema, i + 1);
      assert CountFrom(t, i) == CountLeaves(t.children[i].1) + CountFrom(t, i + 1);
      MulSucc(n - 1, p);
    }
  }

  lemma MulSucc(m: nat, p: nat)
    ensures p + m * p == (m + 1) * p
  {
  }

  /** The leaf count of a built tree, whose decision tag does not matter. */
  lemma BuildLeafCount(schema: seq<Level>, decision: Key)
    requires NoEmptyLevel(schema)
    ensures CountLeaves(Build(schema, decision)) == Product(Fanouts(schema))
    ensures |FindAllLeaves(Build(schema, decision))| == Product(Fanouts(schema))
  {
    BuildConforms(schema, decision);
    ConformsLeafCount(Build(schema, decision), schema);
    LeafListMatchesCount(Build(schema, decision));
  }

  /** A schema-shaped tree has distinct partition keys everywhere. */
  lemma {:induction false} ConformsWellFormed(t: Node, schema: seq<Level>)
    requires Conforms(t, schema)
    ensures WellFormed(t)
    decreases |schema|
  {
    if schema != [] {
      forall i | 0 <= i < |t.children|
        ensures WellFormed(t.children[i].1)
      {
        ConformsWellFormed(t.children[i].1, schema[1..]);
      }
    }
  }
}

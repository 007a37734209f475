/**
 * The size of the full preference tree. Of its eight levels the code fixes four choice sets: the
 * ten rent bands, and `(True, False)` for pets, guests and smoking. The gender, roommate,
 * cleanliness and noise choices come from the parameters file and are left free here.
 */
module TreeSchema {
  import opened Lists
  import opened Preferences
  import opened DecisionTree
  import opened TreeShape

  /** The rent bands as partition keys. */
  function RentKeys(): (ks: seq<Key>)
    ensures |ks| == |RentBands|
    ensures forall i :: 0 <= i < |ks| ==> ks[i] == Band(RentBands[i].0, RentBands[i].1)
  {
    seq(|RentBands|, i requires 0 <= i < |RentBands| => Band(RentBands[i].0, RentBands[i].1))
  }

  /** The choices of a boolean category. */
  const BoolChoices: seq<Key> := [Flag(true), Flag(false)]

  /** The choice sets the code fixes, at the levels it fixes them. */
  predicate FixedLevels(schema: seq<Level>) {
    |schema| == 8 &&
    schema[0].choices == RentKeys() &&
    schema[3].choices == BoolChoices && schema[5].choices == BoolChoices && schema[6].choices == BoolChoices
  }

  lemma RentKeysDistinct()
    ensures Distinct(RentKeys())
  {
    RentBandsShape();
    forall i, j | 0 <= i < j < |RentKeys()|
      ensures RentKeys()[i] != RentKeys()[j]
    {
      BandsDisjoint(RentBands, i, j);
    }
  }

  lemma FixedFanouts(schema: seq<Level>)
    requires FixedLevels(schema)
    ensures Fanouts(schema)[0] == 10
    ensures Fanouts(schema)[3] == 2 && Fanouts(schema)[5] == 2 && Fanouts(schema)[6] == 2
  {
    RentKeysDistinct();
    DedupOfDistinct(RentKeys());
    DedupOfDistinct(BoolChoices);
  }

  lemma ProductStep(s: seq<nat>, i: nat)
    requires i < |s|
    ensures Product(s[i..]) == s[i] * Product(s[i + 1..])
  {
    assert s[i..][1..] == s[i + 1..];
  }

  /** The product of eight factors, unrolled. */
  lemma ProductOfEight(s: seq<nat>)
    requires |s| == 8
    ensures Product(s) == s[0] * (s[1] * (s[2] * (s[3] * (s[4] * (s[5] * (s[6] * s[7]))))))
  {
    assert s[8..] == [];
    ProductStep(s, 7);
    ProductStep(s, 6);
    ProductStep(s, 5);
    ProductStep(s, 4);
    ProductStep(s, 3);
    ProductStep(s, 2);
    ProductStep(s, 1);
    ProductStep(s, 0);
    assert s[0..] == s;
  }

  /** The fixed factors contribute `10 * 2 * 2 * 2`. */
  lemma FixedProduct(f: seq<nat>)
    requires |f| == 8 && f[0] == 10 && f[3] == 2 && f[5] == 2 && f[6] == 2
    ensures Product(f) == 80 * (f[1] * (f[2] * (f[4] * f[7])))
  {
    ProductOfEight(f);
    var x4 := f[4] * (2 * (2 * f[7]));
    assert x4 == 4 * (f[4] * f[7]);
    var x2 := f[2] * (2 * x4);
    assert x2 == 8 * (f[2] * (f[4] * f[7]));
    var x1 := f[1] * x2;
    assert x1 == 8 * (f[1] * (f[2] * (f[4] * f[7])));
  }

  /**
   * The built tree for any such schema has `80 * g * r * c * n` leaves, where `g`, `r`, `c`, `n`
   * are the numbers of distinct gender, roommate, cleanliness and noise choices; it has the
   * 11520 leaves `find_all_leaves` expects of the root exactly when those four multiply to 144.
   */
  lemma RootLeafCount(schema: seq<Level>)
    requires FixedLevels(schema) && NoEmptyLevel(schema)
    ensures var f := Fanouts(schema);
            CountLeaves(Build(schema, Null)) == 80 * (f[1] * (f[2] * (f[4] * f[7])))
    ensures var f := Fanouts(schema);
            CountLeaves(Build(schema, Null)) == 11520 <==> f[1] * (f[2] * (f[4] * f[7])) == 144
  {
    BuildLeafCount(schema, Null);
    FixedFanouts(schema);
    FixedProduct(Fanouts(schema));
  }
}

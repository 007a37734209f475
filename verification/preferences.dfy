/** `get_user_preferences`: the ordered preference values that pick a user's leaf in the tree. */
module Preferences {
  import opened Wrappers
  import opened Users

  /**
   * A dict key of the preference tree. The source keys its dicts with raw Python values
   * (tuples, strings, ints, bools and None); tagging them keeps `True` and `1` apart.
   * `Null` is Python's `None`.
   */
  datatype Key = Null | Band(lo: int, hi: int) | Text(s: string) | Num(n: int) | Flag(b: bool)

  /** Python truthiness of a key value, as `if preference:` reads it. */
  predicate Truthy(k: Key) {
    match k
    case Null => false
    case Band(_, _) => true
    case Text(s) => |s| > 0
    case Num(n) => n != 0
    case Flag(b) => b
  }

  /** The ten fixed rent bands, lowest first. */
  const RentBands: seq<(int, int)> :=
    [(0, 800), (801, 1100), (1101, 1400), (1401, 1700), (1701, 2000),
     (2001, 2300), (2301, 2600), (2601, 2900), (2901, 3200), (3201, 12000)]

  /** `(low + high) // 2`; Dafny's `/` by a positive divisor also rounds down. */
  function Midpoint(rent: (int, int)): int {
    (rent.0 + rent.1) / 2
  }

  /** The first band of `bands` that holds `mid`, scanning in order. */
  function FindBand(bands: seq<(int, int)>, mid: int): (r: Option<(int, int)>)
    ensures r.Some? ==> r.value in bands && r.value.0 <= mid <= r.value.1
    ensures r.None? ==> forall i :: 0 <= i < |bands| ==> !(bands[i].0 <= mid <= bands[i].1)
  {
    if bands == [] then None
    else if bands[0].0 <= mid <= bands[0].1 then Some(bands[0])
    else FindBand(bands[1..], mid)
  }

  /** Each band starts right after the previous one ends. */
  predicate Contiguous(bands: seq<(int, int)>) {
    forall i :: 0 <= i < |bands| - 1 ==> bands[i].1 + 1 == bands[i + 1].0
  }

  /** Contiguous bands leave no gap: every value between the first low and the last high is found. */
  lemma {:induction false} ContiguousBandsCover(bands: seq<(int, int)>, mid: int)
    requires |bands| > 0 && Contiguous(bands)
    ensures bands[0].0 <= mid <= bands[|bands| - 1].1 ==> FindBand(bands, mid).Some?
  {
    if bands[0].1 < mid <= bands[|bands| - 1].1 {
      assert |bands| > 1;
      assert Contiguous(bands[1..]);
      ContiguousBandsCover(bands[1..], mid);
    }
  }

  /** Every band is a non-empty closed range. */
  predicate NonEmptyBands(bands: seq<(int, int)>) {
    forall i :: 0 <= i < |bands| ==> bands[i].0 <= bands[i].1
  }

  /** Contiguous non-empty bands never overlap: a value lies in at most one of them. */
  lemma {:induction false} BandsDisjoint(bands: seq<(int, int)>, i: nat, j: nat)
    requires Contiguous(bands) && NonEmptyBands(bands)
    requires i < j < |bands|
    ensures bands[i].1 < bands[j].0
    decreases j - i
  {
    if i + 1 < j {
      BandsDisjoint(bands, i + 1, j);
    }
  }

  /** Two bands of a contiguous non-empty list that both hold `mid` are the same band. */
  lemma OneBandHolds(bands: seq<(int, int)>, mid: int, b: (int, int), c: (int, int))
    requires Contiguous(bands) && NonEmptyBands(bands)
    requires b in bands && b.0 <= mid <= b.1 && c in bands && c.0 <= mid <= c.1
    ensures b == c
  {
    var i :| 0 <= i < |bands| && bands[i] == b;
    var j :| 0 <= j < |bands| && bands[j] == c;
    if i < j {
      BandsDisjoint(bands, i, j);
    } else if j < i {
      BandsDisjoint(bands, j, i);
    }
  }

  /** A band of a contiguous non-empty list lies between the first low and the last high. */
  lemma BandWithinRange(bands: seq<(int, int)>, b: (int, int))
    requires Contiguous(bands) && NonEmptyBands(bands) && b in bands
    ensures bands[0].0 <= b.0 && b.1 <= bands[|bands| - 1].1
  {
    var i :| 0 <= i < |bands| && bands[i] == b;
    if 0 < i {
      BandsDisjoint(bands, 0, i);
    }
    if i < |bands| - 1 {
      BandsDisjoint(bands, i, |bands| - 1);
    }
  }

  /** On contiguous non-empty bands, the scan finds exactly the one band holding `mid`, if any. */
  lemma FindBandUnique(bands: seq<(int, int)>, mid: int)
    requires |bands| > 0 && Contiguous(bands) && NonEmptyBands(bands)
    ensures FindBand(bands, mid).Some? <==> bands[0].0 <= mid <= bands[|bands| - 1].1
    ensures FindBand(bands, mid).Some? ==>
              forall c :: c in bands && c.0 <= mid <= c.1 ==> c == FindBand(bands, mid).value
  {
    ContiguousBandsCover(bands, mid);
    var r := FindBand(bands, mid);
    if r.Some? {
      forall c | c in bands && c.0 <= mid <= c.1
        ensures c == r.value
      {
        OneBandHolds(bands, mid, c, r.value);
      }
      BandWithinRange(bands, r.value);
    }
  }

  lemma RentBandsShape()
    ensures |RentBands| == 10 && Contiguous(RentBands) && NonEmptyBands(RentBands)
    ensures RentBands[0].0 == 0 && RentBands[9].1 == 12000
  {
  }

  /** The rent-band key of a rent range, or `Null` when no band holds its midpoint. */
  function RentBand(rent: (int, int)): (k: Key)
    ensures k.Band? <==> 0 <= Midpoint(rent) <= 12000
    ensures k.Band? ==> (k.lo, k.hi) in RentBands && k.lo <= Midpoint(rent) <= k.hi
    ensures k.Band? ==> forall b :: b in RentBands && b.0 <= Midpoint(rent) <= b.1 ==> b == (k.lo, k.hi)
    ensures !k.Band? ==> k == Null
  {
    RentBandsShape();
    FindBandUnique(RentBands, Midpoint(rent));
    match FindBand(RentBands, Midpoint(rent))
    case Some(b) => Band(b.0, b.1)
    case None => Null
  }

  /** The six values below the gender level, which the tree uses as keys unchanged. */
  function LowerLevels(u: User): seq<Key> {
    [Num(u.numRoommates), Flag(u.pets), Num(u.cleanliness), Flag(u.guests), Flag(u.smoke), Num(u.noise)]
  }

  /** The eight preference values of a user, in the tree's level order. */
  function UserPreferences(u: User): (r: seq<Key>)
    ensures |r| == 8
    ensures r[0] == RentBand(u.rent)
    ensures r[1] == Flag(u.genderPref)
  {
    [RentBand(u.rent), Flag(u.genderPref)] + LowerLevels(u)
  }

  /** The gender-level key a user descends into: its own gender when it cares, `"any"` otherwise. */
  function GenderKey(u: User): Key {
    if u.genderPref then Text(Lower(u.gender)) else Text("any")
  }

  /** The root-to-leaf keys that locate a user's leaf. */
  function PathOf(u: User): seq<Key> {
    [RentBand(u.rent), GenderKey(u)] + LowerLevels(u)
  }
}

/**
 * The tour-length extension `santa` (pysanta.c) of the Traveling Santa 2018
 * solution: the Euclidean leg length `mesafe`, the comparator `compareints`,
 * the `bsearch` membership test on the sorted table of prime city ids
 * `asalsehirler`, and the accumulation loop of `toplam_mesafe`, where every
 * 10th leg costs 10% more unless it departs from a prime city.
 *
 * The coordinate arrays `x`, `y` become a `Coordinates` value; the square
 * root is the parameter `root`, and the lemmas that need its meaning assume
 * `IsSqrt(root)`. Doubles are modelled as reals.
 */
module Santa {
  import opened Wrappers

  /** `n_asal`: the number of table entries `toplam_mesafe` hands to `bsearch`. */
  const NAsal: nat := 17802

  /** Bounds of a 32-bit C `int`. */
  const IntMin: int := -0x8000_0000
  const IntMax: int := 0x7FFF_FFFF

  predicate IsInt32(v: int)
  {
    IntMin <= v <= IntMax
  }

  /** The value of the 32-bit two's-complement word whose bits are those of `v`. */
  function Wrap32(v: int): (w: int)
    ensures IsInt32(w)
    ensures IsInt32(v) ==> w == v
    ensures (v - w) % 0x1_0000_0000 == 0
  {
    (v - IntMin) % 0x1_0000_0000 + IntMin
  }

  /** The city coordinate arrays `x` and `y` of data.c. */
  datatype Coordinates = Coordinates(x: seq<real>, y: seq<real>)

  predicate ValidCity(c: Coordinates, id: int)
  {
    0 <= id < |c.x| && id < |c.y|
  }

  /** `root` behaves as the square root on non-negative reals (the root of 0 is
      stated outright: the solver does not derive it from the square). */
  ghost predicate IsSqrt(root: real -> real)
  {
    && root(0.0) == 0.0
    && forall t :: 0.0 <= t ==> 0.0 <= root(t) && root(t) * root(t) == t
  }

  /** The square of the straight-line distance between two cities. */
  function SquaredDistance(c: Coordinates, a: int, b: int): (q: real)
    requires ValidCity(c, a) && ValidCity(c, b)
    ensures 0.0 <= q
  {
    var dx := c.x[b] - c.x[a];
    var dy := c.y[b] - c.y[a];
    dx * dx + dy * dy
  }

  /** `mesafe(onceki, yeni)`: the Euclidean distance between two cities. */
  function Mesafe(c: Coordinates, root: real -> real, onceki: int, yeni: int): (m: real)
    requires ValidCity(c, onceki) && ValidCity(c, yeni)
    ensures IsSqrt(root) ==> 0.0 <= m && m * m == SquaredDistance(c, onceki, yeni)
  {
    root(SquaredDistance(c, onceki, yeni))
  }

  /** `mesafe` is a distance: non-negative, its square is the squared distance,
      symmetric, and zero from a city to itself. */
  lemma MesafeIsDistance(c: Coordinates, root: real -> real, a: int, b: int)
    requires IsSqrt(root)
    requires ValidCity(c, a) && ValidCity(c, b)
    ensures 0.0 <= Mesafe(c, root, a, b)
    ensures Mesafe(c, root, a, b) * Mesafe(c, root, a, b) == SquaredDistance(c, a, b)
    ensures Mesafe(c, root, a, b) == Mesafe(c, root, b, a)
    ensures Mesafe(c, root, a, a) == 0.0
  {
    var dx, dy := c.x[b] - c.x[a], c.y[b] - c.y[a];
    assert (-dx) * (-dx) == dx * dx;
    assert (-dy) * (-dy) == dy * dy;
    assert SquaredDistance(c, a, b) == SquaredDistance(c, b, a);
    assert SquaredDistance(c, a, a) == 0.0;
  }

  /** `compareints`: the difference `*a - *b` of two C ints, as the machine
      computes it (two's complement; C leaves an overflowing difference undefined). */
  function CompareInts(a: int, b: int): (r: int)
    requires IsInt32(a) && IsInt32(b)
    ensures IsInt32(r)
    ensures IsInt32(a - b) ==> r == a - b
  {
    Wrap32(a - b)
  }

  /** When the difference does not overflow, the comparator orders like `<`. */
  lemma CompareIntsOrders(a: int, b: int)
    requires IsInt32(a) && IsInt32(b) && IsInt32(a - b)
    ensures CompareInts(a, b) < 0 <==> a < b
    ensures CompareInts(a, b) == 0 <==> a == b
    ensures CompareInts(a, b) > 0 <==> a > b
  {
  }

  /** City ids are non-negative ints, so their difference never overflows. */
  lemma CompareIdsOrders(a: int, b: int)
    requires 0 <= a <= IntMax && 0 <= b <= IntMax
    ensures CompareInts(a, b) < 0 <==> a < b
    ensures CompareInts(a, b) == 0 <==> a == b
    ensures CompareInts(a, b) > 0 <==> a > b
  {
    CompareIntsOrders(a, b);
  }

  /** Far from the non-negative range the comparator misorders: the smallest int
      compares as greater than 1. */
  lemma CompareIntsOverflows()
    ensures IntMin < 1 && CompareInts(IntMin, 1) > 0
  {
    assert Wrap32(IntMin - 1) == IntMax;
  }

  /** A bsearch table: ascending, and every entry a non-negative int, so that
      `compareints` orders its entries correctly. */
  predicate SearchableTable(s: seq<int>)
  {
    && (forall i :: 0 <= i < |s| ==> 0 <= s[i] <= IntMax)
    && (forall i, j :: 0 <= i < j < |s| ==> s[i] <= s[j])
  }

  /** The C library `bsearch(&key, base, n, sizeof(int), compareints)`: a
      halving search of `base[..n]`, giving an index holding `key` or None (NULL). */
  method BSearch(key: int, base: array<int>, n: nat) returns (item: Option<nat>)
    requires n <= base.Length
    requires 0 <= key <= IntMax
    requires SearchableTable(base[..n])
    ensures item.Some? ==> item.value < n && base[item.value] == key
    ensures item.None? <==> key !in base[..n]
  {
    var lo, hi := 0, n;
    while lo < hi
      invariant 0 <= lo <= hi <= n
      invariant forall i :: 0 <= i < lo ==> base[i] < key
      invariant forall i :: hi <= i < n ==> key < base[i]
    {
      var mid := (lo + hi) / 2;
      assert base[..n][mid] == base[mid];
      var cmp := CompareInts(key, base[mid]);
      CompareIdsOrders(key, base[mid]);
      if cmp < 0 {
        forall i | mid <= i < n ensures key < base[i] {
          assert base[..n][mid] <= base[..n][i];
        }
        hi := mid;
      } else if cmp > 0 {
        forall i | 0 <= i <= mid ensures base[i] < key {
          assert base[..n][i] <= base[..n][mid];
        }
        lo := mid + 1;
      } else {
        return Some(mid);
      }
    }
    forall i | 0 <= i < n ensures base[..n][i] != key {
    }
    return None;
  }

  /** A tour `toplam_mesafe` can measure: a non-empty list of valid city ids,
      each small enough to be read as a C int. */
  predicate ValidTour(c: Coordinates, tour: seq<int>)
  {
    |tour| >= 1 && forall k :: 0 <= k < |tour| ==> ValidCity(c, tour[k]) && tour[k] <= IntMax
  }

  /** The cost of the leg taken at step `adim`, from `onceki` to `yeni`:
      10% extra on every 10th step whose departure city is not prime. */
  function LegCost(c: Coordinates, root: real -> real, primes: seq<int>,
                   adim: nat, onceki: int, yeni: int): (r: real)
    requires ValidCity(c, onceki) && ValidCity(c, yeni)
    ensures IsSqrt(root) ==> Mesafe(c, root, onceki, yeni) <= r <= 1.1 * Mesafe(c, root, onceki, yeni)
  {
    var m := Mesafe(c, root, onceki, yeni);
    if adim % 10 == 0 && onceki !in primes then m * 1.1 else m
  }

  /** The cost of the first `k` cities of the tour: the legs of steps 1 .. k-1. */
  function Cost(c: Coordinates, root: real -> real, primes: seq<int>, tour: seq<int>, k: nat): real
    requires ValidTour(c, tour) && k <= |tour|
    decreases k
  {
    if k <= 1 then 0.0
    else Cost(c, root, primes, tour, k - 1) + LegCost(c, root, primes, k - 1, tour[k - 2], tour[k - 1])
  }

  /** The unpenalised Euclidean length of the first `k` cities of the tour. */
  function Length(c: Coordinates, root: real -> real, tour: seq<int>, k: nat): real
    requires ValidTour(c, tour) && k <= |tour|
    decreases k
  {
    if k <= 1 then 0.0
    else Length(c, root, tour, k - 1) + Mesafe(c, root, tour[k - 2], tour[k - 1])
  }

  /** The total penalty of the first `k` cities: a tenth of each penalised leg. */
  function Penalty(c: Coordinates, root: real -> real, primes: seq<int>, tour: seq<int>, k: nat): real
    requires ValidTour(c, tour) && k <= |tour|
    decreases k
  {
    if k <= 1 then 0.0
    else
      var extra := if (k - 1) % 10 == 0 && tour[k - 2] !in primes
                   then 0.1 * Mesafe(c, root, tour[k - 2], tour[k - 1]) else 0.0;
      Penalty(c, root, primes, tour, k - 1) + extra
  }

  /** The source's definition of a tour's cost, over the whole tour. */
  function TourCost(c: Coordinates, root: real -> real, primes: seq<int>, tour: seq<int>): real
    requires ValidTour(c, tour)
  {
    Cost(c, root, primes, tour, |tour|)
  }

  /** `toplam_mesafe(yol)`: walks the tour once, carrying the departure city
      `onceki`, and sums the leg costs; the prime test is the bsearch above. */
  method TotalDistance(c: Coordinates, root: real -> real, asalsehirler: array<int>, yol: seq<int>)
    returns (toplam: real)
    requires ValidTour(c, yol)
    requires NAsal <= asalsehirler.Length && SearchableTable(asalsehirler[..NAsal])
    ensures toplam == TourCost(c, root, asalsehirler[..NAsal], yol)
  {
    toplam := 0.0;
    var onceki := yol[0];
    for adim := 1 to |yol|
      invariant onceki == yol[adim - 1]
      invariant toplam == Cost(c, root, asalsehirler[..NAsal], yol, adim)
    {
      var yeni := yol[adim];
      var m := Mesafe(c, root, onceki, yeni);
      if adim % 10 == 0 {
        var item := BSearch(onceki, asalsehirler, NAsal);
        if item.None? {
          m := m * 1.1;
        }
      }
      toplam := toplam + m;
      onceki := yeni;
    }
  }

  /** Only every 10th step can be penalised; every other leg costs its distance. */
  lemma OffStepsUnpenalised(c: Coordinates, root: real -> real, primes: seq<int>,
                            adim: nat, onceki: int, yeni: int)
    requires ValidCity(c, onceki) && ValidCity(c, yeni)
    requires adim % 10 != 0
    ensures LegCost(c, root, primes, adim, onceki, yeni) == Mesafe(c, root, onceki, yeni)
  {
  }

  /** On a leg of positive length, the leg is penalised exactly when its step is a
      multiple of 10 and its departure city is not in the prime table. */
  lemma PenaltyRule(c: Coordinates, root: real -> real, primes: seq<int>,
                    adim: nat, onceki: int, yeni: int)
    requires ValidCity(c, onceki) && ValidCity(c, yeni)
    requires 0.0 < Mesafe(c, root, onceki, yeni)
    ensures LegCost(c, root, primes, adim, onceki, yeni) > Mesafe(c, root, onceki, yeni)
            <==> adim % 10 == 0 && onceki !in primes
    ensures LegCost(c, root, primes, adim, onceki, yeni) > Mesafe(c, root, onceki, yeni) ==>
            LegCost(c, root, primes, adim, onceki, yeni) == 1.1 * Mesafe(c, root, onceki, yeni)
  {
  }

  /** Whether the arrival city is prime never matters: two tables that agree on
      the departure city give every leg the same cost. */
  lemma PenaltyIgnoresArrival(c: Coordinates, root: real -> real, p: seq<int>, q: seq<int>,
                              adim: nat, onceki: int, yeni: int)
    requires ValidCity(c, onceki) && ValidCity(c, yeni)
    requires onceki in p <==> onceki in q
    ensures LegCost(c, root, p, adim, onceki, yeni) == LegCost(c, root, q, adim, onceki, yeni)
  {
  }

  /** A one-city tour costs nothing. */
  lemma OneCityTour(c: Coordinates, root: real -> real, primes: seq<int>, tour: seq<int>)
    requires ValidTour(c, tour) && |tour| == 1
    ensures TourCost(c, root, primes, tour) == 0.0
  {
  }

  /** The cost is the Euclidean length plus the penalties. */
  lemma {:induction false} CostSplits(c: Coordinates, root: real -> real, primes: seq<int>,
                                      tour: seq<int>, k: nat)
    requires ValidTour(c, tour) && k <= |tour|
    ensures Cost(c, root, primes, tour, k) == Length(c, root, tour, k) + Penalty(c, root, primes, tour, k)
    decreases k
  {
    if k > 1 {
      CostSplits(c, root, primes, tour, k - 1);
    }
  }

  /** Each penalty is at most a tenth of its leg, so the penalties are between
      nothing and a tenth of the length. */
  lemma {:induction false} PenaltyBounds(c: Coordinates, root: real -> real, primes: seq<int>,
                                         tour: seq<int>, k: nat)
    requires IsSqrt(root)
    requires ValidTour(c, tour) && k <= |tour|
    ensures 0.0 <= Penalty(c, root, primes, tour, k) <= 0.1 * Length(c, root, tour, k)
    decreases k
  {
    if k > 1 {
      PenaltyBounds(c, root, primes, tour, k - 1);
      MesafeIsDistance(c, root, tour[k - 2], tour[k - 1]);
    }
  }

  /** The tour cost lies between its Euclidean length and 1.1 times that length. */
  lemma CostBounds(c: Coordinates, root: real -> real, primes: seq<int>, tour: seq<int>)
    requires IsSqrt(root)
    requires ValidTour(c, tour)
    ensures Length(c, root, tour, |tour|) <= TourCost(c, root, primes, tour)
                                        <= 1.1 * Length(c, root, tour, |tour|)
  {
    CostSplits(c, root, primes, tour, |tour|);
    PenaltyBounds(c, root, primes, tour, |tour|);
  }

  /** No penalty before step 10: a tour of at most 10 cities costs its length. */
  lemma {:induction false} ShortTourUnpenalised(c: Coordinates, root: real -> real, primes: seq<int>,
                                                tour: seq<int>, k: nat)
    requires ValidTour(c, tour) && k <= |tour| && k <= 10
    ensures Cost(c, root, primes, tour, k) == Length(c, root, tour, k)
    decreases k
  {
    if k > 1 {
      ShortTourUnpenalised(c, root, primes, tour, k - 1);
    }
  }

  /** A tour that only departs from prime cities on its 10th steps costs its length. */
  lemma {:induction false} PrimeDeparturesUnpenalised(c: Coordinates, root: real -> real, primes: seq<int>,
                                                      tour: seq<int>, k: nat)
    requires ValidTour(c, tour) && k <= |tour|
    requires forall s :: 1 <= s < k && s % 10 == 0 ==> tour[s - 1] in primes
    ensures Cost(c, root, primes, tour, k) == Length(c, root, tour, k)
    decreases k
  {
    if k > 1 {
      PrimeDeparturesUnpenalised(c, root, primes, tour, k - 1);
    }
  }
}

/**
 * The nearest-location search of the location controller: give every stored location its
 * distance from a query point, keep those within the radius, sort them by distance with a
 * stable sort, and return the first ten. The great-circle formula is a parameter, so every
 * property below holds for any distance function.
 */
module Nearest {
  import opened Wrappers
  import opened Sequences
  import opened Store

  /** A distance from (latFrom, lngFrom) to (latTo, lngTo), in kilometres. */
  type DistanceFn = (real, real, real, real) -> real

  /** The radius used when the request gives none. */
  const DefaultRadius: real := 50.0

  /** At most this many locations are returned. */
  const Limit: nat := 10

  /**
   * One location of the answer: its position in `Location::all()` (the collection key that
   * `sortBy` keeps), the stored record, and its computed distance.
   */
  datatype Entry = Entry(index: nat, location: Location, distance: real)

  function EntryIndex(e: Entry): int {
    e.index
  }

  function Radius(dist: Option<real>): real {
    dist.GetOr(DefaultRadius)
  }

  /** `a` comes before `b` in a stable sort by distance of a list ordered by index. */
  predicate Before(a: Entry, b: Entry) {
    a.distance < b.distance || (a.distance == b.distance && a.index < b.index)
  }

  ghost predicate Ranked(s: seq<Entry>) {
    forall i, j :: 0 <= i < j < |s| ==> Before(s[i], s[j])
  }

  /** Distance of the `i`th location from the query point. */
  function DistanceOf(all: seq<Location>, i: nat, lat: real, lng: real, haversine: DistanceFn): real
    requires i < |all|
  {
    haversine(lat, lng, all[i].lat, all[i].lng)
  }

  /** The `map` step: every location with its index and distance. */
  function Annotate(all: seq<Location>, lat: real, lng: real, haversine: DistanceFn): (r: seq<Entry>)
    ensures |r| == |all|
    ensures forall i :: 0 <= i < |r| ==> r[i] == Entry(i, all[i], DistanceOf(all, i, lat, lng, haversine))
    ensures StrictlyIncreasing(r, EntryIndex)
  {
    seq(|all|, i requires 0 <= i < |all| => Entry(i, all[i], DistanceOf(all, i, lat, lng, haversine)))
  }

  /** The `filter` step: the entries no farther than `radius`, in their original order. */
  function WithinRadius(es: seq<Entry>, radius: real): (r: seq<Entry>)
    requires StrictlyIncreasing(es, EntryIndex)
    ensures forall e :: e in r <==> e in es && e.distance <= radius
    ensures StrictlyIncreasing(r, EntryIndex)
  {
    var near := (e: Entry) => e.distance <= radius;
    FilterKeepsOrder(es, near, EntryIndex);
    Filter(es, near)
  }

  /** Prepending an entry that comes before every entry of a ranked list keeps it ranked. */
  lemma RankedCons(x: Entry, s: seq<Entry>)
    requires Ranked(s)
    requires forall k :: 0 <= k < |s| ==> Before(x, s[k])
    ensures Ranked([x] + s)
  {
    var r := [x] + s;
    forall i, j | 0 <= i < j < |r| ensures Before(r[i], r[j]) {
      if i == 0 {
        assert r[j] == s[j - 1];
      } else {
        assert r[i] == s[i - 1] && r[j] == s[j - 1];
      }
    }
  }

  lemma RankedTail(s: seq<Entry>)
    requires Ranked(s) && s != []
    ensures Ranked(s[1..])
  {
    var t := s[1..];
    forall i, j | 0 <= i < j < |t| ensures Before(t[i], t[j]) {
      assert t[i] == s[i + 1] && t[j] == s[j + 1];
    }
  }

  /** The head of a ranked list comes before every other entry in it. */
  lemma RankedHeadFirst(s: seq<Entry>, x: Entry)
    requires Ranked(s) && x in s && x != s[0]
    ensures Before(s[0], x)
  {
    var k :| 0 <= k < |s| && s[k] == x;
  }

  /** An entry no farther than the head, and with a smaller index than all, can go first. */
  lemma InsertAtFront(e: Entry, s: seq<Entry>)
    requires Ranked(s) && s != [] && e.distance <= s[0].distance
    requires forall x :: x in s ==> e.index < x.index
    ensures Ranked([e] + s)
  {
    forall k | 0 <= k < |s| ensures Before(e, s[k]) {
      if k > 0 {
        assert Before(s[0], s[k]);
      }
      assert s[k] in s;
    }
    RankedCons(e, s);
  }

  /** The head of `s`, closer than `e`, comes before everything in `s[1..]` with `e` added. */
  lemma HeadBeforeInserted(e: Entry, s: seq<Entry>, rest: seq<Entry>)
    requires Ranked(s) && s != [] && s[0].distance < e.distance
    requires multiset(rest) == multiset(s[1..]) + multiset{e}
    ensures forall k :: 0 <= k < |rest| ==> Before(s[0], rest[k])
  {
    forall k | 0 <= k < |rest| ensures Before(s[0], rest[k]) {
      var x := rest[k];
      assert x in multiset(rest);
      if x != e {
        assert x in multiset(s[1..]);
        var j :| 0 <= j < |s[1..]| && s[1..][j] == x;
        assert s[j + 1] == x;
        assert Before(s[0], s[j + 1]);
      }
    }
  }

  lemma MultisetTail<T>(s: seq<T>)
    requires s != []
    ensures multiset(s) == multiset{s[0]} + multiset(s[1..])
  {
    assert s == [s[0]] + s[1..];
  }

  /** Places `e`, whose index is below every index in `s`, into the ranked list `s`. */
  function Insert(e: Entry, s: seq<Entry>): (r: seq<Entry>)
    requires Ranked(s)
    requires forall x :: x in s ==> e.index < x.index
    ensures Ranked(r)
    ensures multiset(r) == multiset(s) + multiset{e}
  {
    if s == [] then [e]
    else if e.distance <= s[0].distance then
      InsertAtFront(e, s);
      [e] + s
    else
      RankedTail(s);
      assert forall x :: x in s[1..] ==> x in s;
      var rest := Insert(e, s[1..]);
      HeadBeforeInserted(e, s, rest);
      RankedCons(s[0], rest);
      MultisetTail(s);
      [s[0]] + rest
  }

  /** A permutation of `s[1..]` holds only indices above that of `s[0]`. */
  lemma HeadBelowSorted(s: seq<Entry>, sorted: seq<Entry>)
    requires s != [] && forall x :: x in s[1..] ==> s[0].index < x.index
    requires multiset(sorted) == multiset(s[1..])
    ensures forall x :: x in sorted ==> s[0].index < x.index
  {
    forall x | x in sorted ensures s[0].index < x.index {
      assert x in multiset(sorted);
    }
  }

  /** The stable `sortBy('distance')` of a list ordered by index, as an insertion sort. */
  function SortByDistance(s: seq<Entry>): (r: seq<Entry>)
    requires StrictlyIncreasing(s, EntryIndex)
    ensures Ranked(r)
    ensures multiset(r) == multiset(s)
  {
    if s == [] then []
    else
      IncreasingTail(s, EntryIndex);
      var sorted := SortByDistance(s[1..]);
      HeadBelowSorted(s, sorted);
      MultisetTail(s);
      Insert(s[0], sorted)
  }

  /**
   * A ranked permutation is unique: every stable sort by distance of the same entries gives
   * exactly the list `SortByDistance` gives.
   */
  lemma {:induction false} RankedPermutationUnique(a: seq<Entry>, b: seq<Entry>)
    requires Ranked(a) && Ranked(b)
    requires multiset(a) == multiset(b)
    ensures a == b
  {
    if a != [] {
      RankedSameHead(a, b);
      MultisetTail(a);
      MultisetTail(b);
      assert multiset(a[1..]) == multiset(a) - multiset{a[0]};
      assert multiset(b[1..]) == multiset(b) - multiset{b[0]};
      RankedTail(a);
      RankedTail(b);
      RankedPermutationUnique(a[1..], b[1..]);
      assert a == [a[0]] + a[1..] && b == [b[0]] + b[1..];
    }
  }

  /** Two ranked permutations of the same entries start with the same entry. */
  lemma RankedSameHead(a: seq<Entry>, b: seq<Entry>)
    requires Ranked(a) && Ranked(b)
    requires multiset(a) == multiset(b) && a != []
    ensures b != [] && a[0] == b[0]
  {
    assert a[0] in multiset(b);
    assert b[0] in multiset(a);
    if a[0] != b[0] {
      // each head would have to come before the other
      RankedHeadFirst(b, a[0]);
      RankedHeadFirst(a, b[0]);
      assert false;
    }
  }

  /** Every location within `radius`, ranked by distance; the answer is its first ten. */
  function Candidates(all: seq<Location>, lat: real, lng: real, radius: real, haversine: DistanceFn): (r: seq<Entry>)
    ensures Ranked(r)
    ensures forall e :: e in r <==> e in Annotate(all, lat, lng, haversine) && e.distance <= radius
  {
    var within := WithinRadius(Annotate(all, lat, lng, haversine), radius);
    var r := SortByDistance(within);
    assert forall e :: e in r <==> e in multiset(within);
    r
  }

  /** `getNearestLocations(lat, lng, dist = 50)` over `all`, the rows of `Location::all()`. */
  function NearestLocations(all: seq<Location>, lat: real, lng: real, dist: Option<real>, haversine: DistanceFn): (r: seq<Entry>)
    ensures |r| <= Limit
  {
    Take(Candidates(all, lat, lng, Radius(dist), haversine), Limit)
  }

  /** The `i`th stored location is within the effective radius. */
  predicate Qualifies(all: seq<Location>, i: nat, lat: real, lng: real, dist: Option<real>, haversine: DistanceFn) {
    i < |all| && DistanceOf(all, i, lat, lng, haversine) <= Radius(dist)
  }

  /** Some entry of `r` is the `i`th stored location. */
  predicate Returned(r: seq<Entry>, i: nat) {
    exists k :: 0 <= k < |r| && r[k].index == i
  }

  /** At most ten entries, each within `dist`, or within 50 km when no `dist` is given. */
  lemma NearestBounds(all: seq<Location>, lat: real, lng: real, dist: Option<real>, haversine: DistanceFn)
    ensures |NearestLocations(all, lat, lng, dist, haversine)| <= Limit
    ensures forall e :: e in NearestLocations(all, lat, lng, dist, haversine) ==> e.distance <= Radius(dist)
    ensures dist.None? ==> forall e :: e in NearestLocations(all, lat, lng, dist, haversine) ==> e.distance <= 50.0
  {
    var c := Candidates(all, lat, lng, Radius(dist), haversine);
    var r := NearestLocations(all, lat, lng, dist, haversine);
    forall e | e in r ensures e.distance <= Radius(dist) {
      var k :| 0 <= k < |r| && r[k] == e;
      assert c[k] == e;
    }
  }

  /**
   * Each entry is a stored location unchanged, paired with its own distance, and no stored
   * location appears twice.
   */
  lemma NearestFaithful(all: seq<Location>, lat: real, lng: real, dist: Option<real>, haversine: DistanceFn)
    ensures var r := NearestLocations(all, lat, lng, dist, haversine);
      forall k :: 0 <= k < |r| ==>
        && r[k].index < |all|
        && r[k].location == all[r[k].index]
        && r[k].distance == DistanceOf(all, r[k].index, lat, lng, haversine)
    ensures var r := NearestLocations(all, lat, lng, dist, haversine);
      forall j, k :: 0 <= j < k < |r| ==> r[j].index != r[k].index
  {
    var a := Annotate(all, lat, lng, haversine);
    var c := Candidates(all, lat, lng, Radius(dist), haversine);
    var r := NearestLocations(all, lat, lng, dist, haversine);
    forall k | 0 <= k < |r|
      ensures r[k].index < |all| && r[k].location == all[r[k].index]
      ensures r[k].distance == DistanceOf(all, r[k].index, lat, lng, haversine)
    {
      assert r[k] == c[k] && c[k] in c;
      var i :| 0 <= i < |a| && a[i] == r[k];
    }
    forall j, k | 0 <= j < k < |r| ensures r[j].index != r[k].index {
      assert r[j] == c[j] && r[k] == c[k];
      assert Before(c[j], c[k]);
      assert c[j] in c && c[k] in c;
      var i1 :| 0 <= i1 < |a| && a[i1] == c[j];
      var i2 :| 0 <= i2 < |a| && a[i2] == c[k];
    }
  }

  /**
   * Non-decreasing distance, and among equal distances the order of `Location::all()`,
   * because the sort is stable.
   */
  lemma NearestOrdered(all: seq<Location>, lat: real, lng: real, dist: Option<real>, haversine: DistanceFn)
    ensures var r := NearestLocations(all, lat, lng, dist, haversine);
      forall j, k :: 0 <= j < k < |r| ==>
        r[j].distance <= r[k].distance && (r[j].distance == r[k].distance ==> r[j].index < r[k].index)
  {
    var c := Candidates(all, lat, lng, Radius(dist), haversine);
    var r := NearestLocations(all, lat, lng, dist, haversine);
    forall j, k | 0 <= j < k < |r|
      ensures r[j].distance <= r[k].distance && (r[j].distance == r[k].distance ==> r[j].index < r[k].index)
    {
      assert r[j] == c[j] && r[k] == c[k];
      assert Before(c[j], c[k]);
    }
  }

  /**
   * Top-k: a qualifying location is left out only when ten were returned, and then every
   * returned one is at most as far, and strictly earlier in `Location::all()` when as far.
   */
  lemma NearestTopK(all: seq<Location>, lat: real, lng: real, dist: Option<real>, haversine: DistanceFn, i: nat)
    requires Qualifies(all, i, lat, lng, dist, haversine)
    requires !Returned(NearestLocations(all, lat, lng, dist, haversine), i)
    ensures |NearestLocations(all, lat, lng, dist, haversine)| == Limit
    ensures var r := NearestLocations(all, lat, lng, dist, haversine);
      forall k :: 0 <= k < |r| ==>
        && r[k].distance <= DistanceOf(all, i, lat, lng, haversine)
        && (r[k].distance == DistanceOf(all, i, lat, lng, haversine) ==> r[k].index < i)
  {
    var a := Annotate(all, lat, lng, haversine);
    var c := Candidates(all, lat, lng, Radius(dist), haversine);
    var r := NearestLocations(all, lat, lng, dist, haversine);
    var x := a[i];
    assert x in c;
    assert x !in r;
    LeftOutOfTake(c, Limit, x);
  }

  /** What a prefix of a ranked list leaves out comes after everything in the prefix. */
  lemma LeftOutOfTake(c: seq<Entry>, n: nat, x: Entry)
    requires Ranked(c) && x in c && x !in Take(c, n)
    ensures |Take(c, n)| == n
    ensures forall k :: 0 <= k < n ==> Before(c[k], x)
  {
    var p :| 0 <= p < |c| && c[p] == x;
    var t := Take(c, n);
    assert p >= |t|;
  }

  /** When fewer than ten are returned, every location within the radius is among them. */
  lemma NearestAllWhenFew(all: seq<Location>, lat: real, lng: real, dist: Option<real>, haversine: DistanceFn)
    requires |NearestLocations(all, lat, lng, dist, haversine)| < Limit
    ensures forall i :: Qualifies(all, i, lat, lng, dist, haversine) ==>
      Returned(NearestLocations(all, lat, lng, dist, haversine), i)
  {
    forall i | Qualifies(all, i, lat, lng, dist, haversine)
      ensures Returned(NearestLocations(all, lat, lng, dist, haversine), i)
    {
      if !Returned(NearestLocations(all, lat, lng, dist, haversine), i) {
        NearestTopK(all, lat, lng, dist, haversine, i);
      }
    }
  }

  /** When any location is within the radius, the first entry is at least as close as it. */
  lemma NearestFirstIsClosest(all: seq<Location>, lat: real, lng: real, dist: Option<real>, haversine: DistanceFn, i: nat)
    requires Qualifies(all, i, lat, lng, dist, haversine)
    ensures var r := NearestLocations(all, lat, lng, dist, haversine);
      r != [] && r[0].distance <= DistanceOf(all, i, lat, lng, haversine)
  {
    var r := NearestLocations(all, lat, lng, dist, haversine);
    if Returned(r, i) {
      var k :| 0 <= k < |r| && r[k].index == i;
      NearestFaithful(all, lat, lng, dist, haversine);
      if k > 0 {
        NearestOrdered(all, lat, lng, dist, haversine);
      }
    } else {
      NearestTopK(all, lat, lng, dist, haversine, i);
    }
  }

  /** No location within the radius (a radius of 0 with nothing at the query point): empty answer. */
  lemma NearestEmptyWhenNoneQualifies(all: seq<Location>, lat: real, lng: real, dist: Option<real>, haversine: DistanceFn)
    requires forall i :: 0 <= i < |all| ==> DistanceOf(all, i, lat, lng, haversine) > Radius(dist)
    ensures NearestLocations(all, lat, lng, dist, haversine) == []
  {
    var r := NearestLocations(all, lat, lng, dist, haversine);
    if r != [] {
      NearestFaithful(all, lat, lng, dist, haversine);
      NearestBounds(all, lat, lng, dist, haversine);
    }
  }

  /** Each entry is a stored location, with its distance from the query point, within the radius. */
  lemma NearestMembers(all: seq<Location>, lat: real, lng: real, dist: Option<real>, haversine: DistanceFn)
    ensures forall e :: e in NearestLocations(all, lat, lng, dist, haversine) ==>
      && e.location in all
      && e.distance == haversine(lat, lng, e.location.lat, e.location.lng)
      && e.distance <= Radius(dist)
  {
    var r := NearestLocations(all, lat, lng, dist, haversine);
    NearestFaithful(all, lat, lng, dist, haversine);
    NearestBounds(all, lat, lng, dist, haversine);
    forall e | e in r ensures e.location in all && e.distance == haversine(lat, lng, e.location.lat, e.location.lng) {
      var k :| 0 <= k < |r| && r[k] == e;
    }
  }

  /** With fewer than ten entries, every stored location within the radius is one of them. */
  lemma NearestCoversWhenFew(all: seq<Location>, lat: real, lng: real, dist: Option<real>, haversine: DistanceFn)
    requires |NearestLocations(all, lat, lng, dist, haversine)| < Limit
    ensures forall l :: l in all && haversine(lat, lng, l.lat, l.lng) <= Radius(dist) ==>
      exists e :: e in NearestLocations(all, lat, lng, dist, haversine) && e.location == l
  {
    var r := NearestLocations(all, lat, lng, dist, haversine);
    NearestAllWhenFew(all, lat, lng, dist, haversine);
    NearestFaithful(all, lat, lng, dist, haversine);
    forall l | l in all && haversine(lat, lng, l.lat, l.lng) <= Radius(dist)
      ensures exists e :: e in r && e.location == l
    {
      var i :| 0 <= i < |all| && all[i] == l;
      assert Qualifies(all, i, lat, lng, dist, haversine);
      var k :| 0 <= k < |r| && r[k].index == i;
      assert r[k] in r;
    }
  }

  /**
   * `getNearestLocations` over the locations table: at most ten stored locations, each with
   * its own distance and within the radius; when fewer than ten come back, every stored
   * location within the radius is among them.
   */
  function GetNearestLocations(db: Database, lat: real, lng: real, dist: Option<real>, haversine: DistanceFn): (r: seq<Entry>)
    reads db
    requires db.Valid()
    ensures |r| <= Limit
    ensures forall e :: e in r ==>
      && e.location in db.locations.Values
      && e.distance == haversine(lat, lng, e.location.lat, e.location.lng)
      && e.distance <= Radius(dist)
    ensures |r| < Limit ==> forall l :: l in db.locations.Values && haversine(lat, lng, l.lat, l.lng) <= Radius(dist) ==>
      exists e :: e in r && e.location == l
  {
    var all := db.LocationRows();
    NearestMembers(all, lat, lng, dist, haversine);
    if |NearestLocations(all, lat, lng, dist, haversine)| < Limit then
      NearestCoversWhenFew(all, lat, lng, dist, haversine);
      NearestLocations(all, lat, lng, dist, haversine)
    else
      NearestLocations(all, lat, lng, dist, haversine)
  }
}

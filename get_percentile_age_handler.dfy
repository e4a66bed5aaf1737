/**
 * `get_percentile_age`: the percentiles p50, p75 and p99 of the citizens'
 * ages, town by town. numpy's `'linear'` rule is evaluated exactly over the
 * reals; the ages themselves come from a function of the birth date.
 */
module GetPercentileAgeHandler {
  import opened Wrappers
  import opened Errors
  import opened Sequences
  import opened Dicts
  import opened Dates
  import opened Citizens
  import opened Store
  import opened Shared

  /** A citizen as `_calculate_age` leaves it, reduced to the two fields used. */
  datatype AgedCitizen = AgedCitizen(town: string, age: int)

  /** town -> the ages of its citizens */
  type Grouped = Dict<string, seq<int>>

  function AgesOf(g: Grouped, town: string): seq<int> {
    if town in g.values then g.values[town] else []
  }

  /** `grouped[town].append(age)` on the `defaultdict(list)`. */
  function Append(g: Grouped, town: string, age: int): Grouped {
    Put(g, town, AgesOf(g, town) + [age])
  }

  /** `_group_by_town`, as the fold its loop computes. */
  function GroupedOf(cs: seq<AgedCitizen>): Grouped {
    if cs == [] then Empty()
    else Append(GroupedOf(cs[..|cs| - 1]), cs[|cs| - 1].town, cs[|cs| - 1].age)
  }

  /** `_group_by_town`. */
  method GroupByTown(cs: seq<AgedCitizen>) returns (grouped: Grouped)
    ensures grouped == GroupedOf(cs)
  {
    grouped := Empty();
    for i := 0 to |cs|
      invariant grouped == GroupedOf(cs[..i])
    {
      var c := cs[i];
      var ages := if c.town in grouped.values then grouped.values[c.town] else [];
      grouped := Put(grouped, c.town, ages + [c.age]);
      assert cs[..i + 1][..i] == cs[..i];
    }
    assert cs[..|cs|] == cs;
  }

  function Towns(cs: seq<AgedCitizen>): (r: seq<string>)
    ensures |r| == |cs| && forall i :: 0 <= i < |cs| ==> r[i] == cs[i].town
  {
    seq(|cs|, i requires 0 <= i < |cs| => cs[i].town)
  }

  /** The ages of the citizens of `town`, in list order. */
  function AgesIn(cs: seq<AgedCitizen>, town: string): seq<int> {
    if cs == [] then []
    else AgesIn(cs[..|cs| - 1], town) + (if cs[|cs| - 1].town == town then [cs[|cs| - 1].age] else [])
  }

  /** A valid dict none of whose groups is empty. */
  predicate WellFormedGroups(g: Grouped) {
    Valid(g) && forall t :: t in g.values ==> g.values[t] != []
  }

  lemma {:induction false} GroupedWellFormed(cs: seq<AgedCitizen>)
    ensures WellFormedGroups(GroupedOf(cs))
  {
    if cs != [] {
      var init, c := cs[..|cs| - 1], cs[|cs| - 1];
      GroupedWellFormed(init);
      PutValid(GroupedOf(init), c.town, AgesOf(GroupedOf(init), c.town) + [c.age]);
    }
  }

  lemma TownsSnoc(cs: seq<AgedCitizen>)
    requires cs != []
    ensures Towns(cs) == Towns(cs[..|cs| - 1]) + [cs[|cs| - 1].town]
  {
    var init, c := cs[..|cs| - 1], cs[|cs| - 1];
    assert forall i :: 0 <= i < |cs| ==> Towns(cs)[i] == (Towns(init) + [c.town])[i];
  }

  /** The towns are listed in the order they first occur. */
  lemma {:induction false} GroupedTowns(cs: seq<AgedCitizen>)
    ensures GroupedOf(cs).keys == Dedup(Towns(cs))
  {
    if cs != [] {
      var init, c := cs[..|cs| - 1], cs[|cs| - 1];
      var g := GroupedOf(init);
      GroupedTowns(init);
      GroupedWellFormed(init);
      PutValid(g, c.town, AgesOf(g, c.town) + [c.age]);
      TownsSnoc(cs);
      DedupSnoc(Towns(init), c.town);
    }
  }

  /** Each town holds the ages of its citizens, in list order. */
  lemma {:induction false} GroupedAges(cs: seq<AgedCitizen>, town: string)
    ensures AgesOf(GroupedOf(cs), town) == AgesIn(cs, town)
  {
    if cs != [] {
      var init, c := cs[..|cs| - 1], cs[|cs| - 1];
      var g := GroupedOf(init);
      GroupedAges(init, town);
      GroupedWellFormed(init);
      PutValid(g, c.town, AgesOf(g, c.town) + [c.age]);
    }
  }

  function GroupSize(g: Grouped): string -> nat {
    t => |AgesOf(g, t)|
  }

  /** Every citizen is counted in exactly one group. */
  lemma {:induction false} GroupedSizes(cs: seq<AgedCitizen>)
    ensures SumOver(GroupedOf(cs).keys, GroupSize(GroupedOf(cs))) == |cs|
  {
    if cs != [] {
      var init, c := cs[..|cs| - 1], cs[|cs| - 1];
      var g := GroupedOf(init);
      var g' := GroupedOf(cs);
      GroupedSizes(init);
      GroupedWellFormed(init);
      PutValid(g, c.town, AgesOf(g, c.town) + [c.age]);
      if c.town in g.values {
        assert c.town in SetOf(g.keys);
        SumOverBump(g.keys, GroupSize(g), GroupSize(g'), c.town);
      } else {
        assert c.town !in SetOf(g.keys);
        SumOverSnoc(g.keys, c.town, GroupSize(g'));
        SumOverSame(g.keys, GroupSize(g), GroupSize(g'));
      }
    }
  }

  /**
   * `_group_by_town`: one group per town in first-occurrence order, each
   * holding that town's ages in list order and never empty; the group
   * sizes add up to the number of citizens.
   */
  lemma GroupByTownCorrect(cs: seq<AgedCitizen>)
    ensures var g := GroupedOf(cs);
      && WellFormedGroups(g)
      && g.keys == Dedup(Towns(cs))
      && (forall t :: t in g.values ==> g.values[t] == AgesIn(cs, t))
      && SumOver(g.keys, GroupSize(g)) == |cs|
  {
    GroupedWellFormed(cs);
    GroupedTowns(cs);
    GroupedSizes(cs);
    forall t | t in GroupedOf(cs).values ensures GroupedOf(cs).values[t] == AgesIn(cs, t) {
      GroupedAges(cs, t);
    }
  }

  // ---------------------------------------------------------------- percentiles

  predicate Sorted(s: seq<int>) {
    forall i, j :: 0 <= i < j < |s| ==> s[i] <= s[j]
  }

  /** Every element of a permutation of `init` plus `x` is at most `last`, if `x` is and `init + [last]` is sorted. */
  lemma InsertBound(init: seq<int>, last: int, x: int, r: seq<int>)
    requires Sorted(init + [last]) && x <= last && multiset(r) == multiset(init) + multiset{x}
    ensures forall i :: 0 <= i < |r| ==> r[i] <= last
  {
    forall i | 0 <= i < |r| ensures r[i] <= last {
      var y := r[i];
      assert y in multiset(r);
      if y != x {
        assert y in multiset(init);
        var j :| 0 <= j < |init| && init[j] == y;
        assert (init + [last])[j] == y && (init + [last])[|init|] == last;
      }
    }
  }

  lemma SortedSnoc(r: seq<int>, last: int)
    requires Sorted(r) && forall i :: 0 <= i < |r| ==> r[i] <= last
    ensures Sorted(r + [last])
  {
  }

  /** Inserts `x` into a sorted list. */
  function Insert(s: seq<int>, x: int): (r: seq<int>)
    requires Sorted(s)
    ensures Sorted(r) && multiset(r) == multiset(s) + multiset{x} && |r| == |s| + 1
  {
    if s == [] || s[|s| - 1] <= x then
      SortedSnoc(s, x);
      s + [x]
    else
      var init, last := s[..|s| - 1], s[|s| - 1];
      assert s == init + [last];
      var r := Insert(init, x);
      InsertBound(init, last, x, r);
      SortedSnoc(r, last);
      r + [last]
  }

  /** The sorted permutation of `s`, which numpy computes before interpolating. */
  function SortedOf(s: seq<int>): (r: seq<int>)
    ensures Sorted(r) && multiset(r) == multiset(s) && |r| == |s|
  {
    if s == [] then []
    else
      assert s == s[..|s| - 1] + [s[|s| - 1]];
      Insert(SortedOf(s[..|s| - 1]), s[|s| - 1])
  }

  /** Sorting the sorted list `s + [x]` is appending `x` to it. */
  lemma SortedOfSnoc(s: seq<int>, x: int)
    requires SortedOf(s) == s && (s == [] || s[|s| - 1] <= x)
    ensures SortedOf(s + [x]) == s + [x]
  {
    assert (s + [x])[..|s|] == s;
  }

  /** Sorting a sorted list leaves it as it is. */
  lemma {:induction false} SortedOfSorted(s: seq<int>)
    requires Sorted(s)
    ensures SortedOf(s) == s
  {
    if s != [] {
      var init, last := s[..|s| - 1], s[|s| - 1];
      assert s == init + [last];
      assert Sorted(init);
      SortedOfSorted(init);
      SortedOfSnoc(init, last);
    }
  }

  /** The position `(n - 1) * p` in hundredths lies inside the list, and so does its successor when it is not whole. */
  lemma PositionBounds(n: nat, p: nat)
    requires n > 0 && p <= 100
    ensures 0 <= (n - 1) * p <= (n - 1) * 100
  {
    PositionMonotone(n, 0, p);
    PositionMonotone(n, p, 100);
  }

  /** The list value at `pos` hundredths of a place, interpolated linearly between neighbours. */
  function At(r: seq<int>, pos: nat): real
    requires pos <= (|r| - 1) * 100
  {
    var lo := pos / 100;
    if pos % 100 == 0 then r[lo] as real
    else r[lo] as real + (r[lo + 1] - r[lo]) as real * ((pos % 100) as real / 100.0)
  }

  /** numpy's `'linear'` rule on a sorted list: the value at position `(n - 1) * p / 100`. */
  function Interpolate(r: seq<int>, p: nat): real
    requires |r| > 0 && p <= 100
  {
    PositionBounds(|r|, p);
    At(r, (|r| - 1) * p)
  }

  /** `np.percentile(ages, p, interpolation='linear')`, without the rounding. */
  function Percentile(ages: seq<int>, p: nat): real
    requires |ages| > 0 && p <= 100
  {
    Interpolate(SortedOf(ages), p)
  }

  /** The three percentiles one town's list becomes. */
  function Percentiles(ages: seq<int>): (r: seq<real>)
    requires |ages| > 0
    ensures |r| == 3
  {
    [Percentile(ages, 50), Percentile(ages, 75), Percentile(ages, 99)]
  }

  function MinOf(s: seq<int>): (m: int)
    requires |s| > 0
    ensures m in s && forall x :: x in s ==> m <= x
  {
    if |s| == 1 then s[0]
    else
      var init, last := s[..|s| - 1], s[|s| - 1];
      assert s == init + [last];
      var m := MinOf(init);
      if last < m then last else m
  }

  function MaxOf(s: seq<int>): (m: int)
    requires |s| > 0
    ensures m in s && forall x :: x in s ==> x <= m
  {
    if |s| == 1 then s[0]
    else
      var init, last := s[..|s| - 1], s[|s| - 1];
      assert s == init + [last];
      var m := MaxOf(init);
      if last > m then last else m
  }

  /** The ends of the sorted permutation are the least and the greatest age. */
  lemma SortedEnds(s: seq<int>)
    requires |s| > 0
    ensures SortedOf(s)[0] == MinOf(s) && SortedOf(s)[|s| - 1] == MaxOf(s)
  {
    var r := SortedOf(s);
    var lo, hi := r[0], r[|r| - 1];
    assert lo in multiset(s) && hi in multiset(s) by {
      assert lo in multiset(r) && hi in multiset(r);
    }
    var mn, mx := MinOf(s), MaxOf(s);
    assert mn in multiset(r) && mx in multiset(r) by {
      assert mn in multiset(s) && mx in multiset(s);
    }
    assert lo in s && hi in s && mn in r && mx in r;
    var i :| 0 <= i < |r| && r[i] == mn;
    var j :| 0 <= j < |r| && r[j] == mx;
    assert lo <= mn by {
      assert r[0] <= r[i];
    }
    assert mx <= hi by {
      assert r[j] <= r[|r| - 1];
    }
    assert mn <= lo && hi <= mx;
  }

  /** An interpolated value lies between the two neighbours it is taken from. */
  lemma AtBounds(r: seq<int>, pos: nat)
    requires Sorted(r) && pos <= (|r| - 1) * 100
    ensures pos / 100 < |r| && r[pos / 100] as real <= At(r, pos)
    ensures pos % 100 == 0 ==> At(r, pos) == r[pos / 100] as real
    ensures pos % 100 != 0 ==> pos / 100 + 1 < |r| && At(r, pos) <= r[pos / 100 + 1] as real
  {
    var lo := pos / 100;
    assert pos == 100 * lo + pos % 100;
    if pos % 100 != 0 {
      assert 100 * lo < 100 * (|r| - 1);
      assert r[lo] <= r[lo + 1];
      var d := (r[lo + 1] - r[lo]) as real;
      var f := (pos % 100) as real / 100.0;
      assert 0.0 < f < 1.0;
      MulBounds(d, f);
      assert At(r, pos) == r[lo] as real + d * f;
      assert r[lo] as real + d == r[lo + 1] as real;
    }
  }

  lemma MulBounds(d: real, f: real)
    requires d >= 0.0 && 0.0 <= f <= 1.0
    ensures 0.0 <= d * f <= d
  {
  }

  lemma MulMonotone(d: real, f: real, g: real)
    requires d >= 0.0 && f <= g
    ensures d * f <= d * g
  {
    assert d * g - d * f == d * (g - f);
  }

  lemma DivMonotone(a: nat, b: nat)
    requires a <= b
    ensures a / 100 <= b / 100
    ensures a / 100 == b / 100 ==> a % 100 <= b % 100
  {
  }

  /** Within one cell the interpolation grows with the fraction. */
  lemma AtMonotoneInCell(r: seq<int>, a: nat, b: nat)
    requires Sorted(r) && a <= b <= (|r| - 1) * 100
    requires a / 100 == b / 100 && a % 100 != 0
    ensures At(r, a) <= At(r, b)
  {
    var lo := a / 100;
    assert a == 100 * lo + a % 100 && b == 100 * lo + b % 100;
    assert lo + 1 < |r|;
    var d := (r[lo + 1] - r[lo]) as real;
    var fa, fb := (a % 100) as real / 100.0, (b % 100) as real / 100.0;
    assert a % 100 <= b % 100;
    assert fa <= fb;
    assert r[lo] <= r[lo + 1];
    MulMonotone(d, fa, fb);
    assert At(r, a) == r[lo] as real + d * fa;
    assert At(r, b) == r[lo] as real + d * fb;
  }

  /** Interpolating further along a sorted list never gives a smaller value. */
  lemma AtMonotone(r: seq<int>, a: nat, b: nat)
    requires Sorted(r) && a <= b <= (|r| - 1) * 100
    ensures At(r, a) <= At(r, b)
  {
    DivMonotone(a, b);
    var la, lb := a / 100, b / 100;
    if la == lb && a % 100 != 0 {
      AtMonotoneInCell(r, a, b);
    } else {
      AtBounds(r, a);
      AtBounds(r, b);
      if a % 100 != 0 {
        assert r[la + 1] <= r[lb];
      } else {
        assert r[la] <= r[lb];
      }
    }
  }

  lemma {:induction false} PositionMonotone(n: nat, p: nat, q: nat)
    requires n > 0 && p <= q
    ensures (n - 1) * p <= (n - 1) * q
    decreases n
  {
    if n > 1 {
      PositionMonotone(n - 1, p, q);
      assert (n - 1) * p == (n - 2) * p + p;
      assert (n - 1) * q == (n - 2) * q + q;
    }
  }

  /** A higher percentile is never smaller. */
  lemma InterpolateMonotone(r: seq<int>, p: nat, q: nat)
    requires Sorted(r) && |r| > 0 && p <= q <= 100
    ensures Interpolate(r, p) <= Interpolate(r, q)
  {
    PositionBounds(|r|, p);
    PositionBounds(|r|, q);
    PositionMonotone(|r|, p, q);
    AtMonotone(r, (|r| - 1) * p, (|r| - 1) * q);
  }

  /** Every percentile lies between the first and the last element of the sorted list. */
  lemma InterpolateBounds(r: seq<int>, p: nat)
    requires Sorted(r) && |r| > 0 && p <= 100
    ensures r[0] as real <= Interpolate(r, p) <= r[|r| - 1] as real
  {
    InterpolateMonotone(r, 0, p);
    InterpolateMonotone(r, p, 100);
    AtBounds(r, 0);
    AtBounds(r, (|r| - 1) * 100);
  }

  /**
   * The three percentiles of a non-empty list are ordered and lie between
   * its least and its greatest value.
   */
  lemma PercentilesOrdered(ages: seq<int>)
    requires |ages| > 0
    ensures var r := Percentiles(ages);
      MinOf(ages) as real <= r[0] <= r[1] <= r[2] <= MaxOf(ages) as real
  {
    var s := SortedOf(ages);
    SortedEnds(ages);
    InterpolateBounds(s, 50);
    InterpolateBounds(s, 99);
    InterpolateMonotone(s, 50, 75);
    InterpolateMonotone(s, 75, 99);
  }

  /** A town with a single citizen of age `x` gets `[x, x, x]`. */
  lemma PercentilesSingleton(x: int)
    ensures Percentiles([x]) == [x as real, x as real, x as real]
  {
    SortedOfSnoc([], x);
  }

  /** The ages 19, 25, 40, 50, 51, 53, 55 give 50, 52 and 54.88. */
  lemma PercentilesExample()
    ensures Percentiles([19, 25, 40, 50, 51, 53, 55]) == [50.0, 52.0, 54.88]
  {
    var r := [19, 25, 40, 50, 51, 53, 55];
    ExampleSorted();
    ExampleAt();
    assert Percentile(r, 50) == At(r, 300);
    assert Percentile(r, 75) == At(r, 450);
    assert Percentile(r, 99) == At(r, 594);
  }

  lemma ExampleSorted()
    ensures SortedOf([19, 25, 40, 50, 51, 53, 55]) == [19, 25, 40, 50, 51, 53, 55]
  {
    SortedOfSorted([19, 25, 40, 50, 51, 53, 55]);
  }

  lemma ExampleAt()
    ensures var r := [19, 25, 40, 50, 51, 53, 55];
      At(r, 300) == 50.0 && At(r, 450) == 52.0 && At(r, 594) == 54.88
  {
    var r := [19, 25, 40, 50, 51, 53, 55];
    assert 300 / 100 == 3 && 300 % 100 == 0 && r[3] == 50;
    assert 450 / 100 == 4 && 450 % 100 == 50 && r[4] == 51 && r[5] == 53;
    assert 594 / 100 == 5 && 594 % 100 == 94 && r[5] == 53 && r[6] == 55;
  }

  // ---------------------------------------------------------------- the response

  /** The rewrite `_calculate_percentile` applies to every town's list. */
  const PercentilesOfAges: seq<int> --> seq<real> := ages requires |ages| > 0 => Percentiles(ages)

  /** `_calculate_percentile`'s result: every town's list replaced by its three percentiles. */
  function PercentilesOfGroups(g: Grouped): (r: Dict<string, seq<real>>)
    requires WellFormedGroups(g)
    ensures r.keys == g.keys && r.values.Keys == g.values.Keys
    ensures forall t :: t in g.values ==> r.values[t] == Percentiles(g.values[t]) && |r.values[t]| == 3
  {
    MapValues(g, PercentilesOfAges)
  }

  /** Every town of the dict has its three percentiles. */
  lemma PercentilesOfGroupsComplete(g: Grouped)
    requires WellFormedGroups(g)
    ensures var d := PercentilesOfGroups(g);
      forall i :: 0 <= i < |d.keys| ==> d.keys[i] in d.values && |d.values[d.keys[i]]| >= 3
  {
    var d := PercentilesOfGroups(g);
    forall i | 0 <= i < |d.keys| ensures d.keys[i] in d.values && |d.values[d.keys[i]]| >= 3 {
      assert d.keys[i] in SetOf(g.keys);
    }
  }

  /** `_calculate_percentile`, town by town in key order. */
  method CalculatePercentile(grouped: Grouped) returns (result: Dict<string, seq<real>>)
    requires WellFormedGroups(grouped)
    ensures result == PercentilesOfGroups(grouped)
  {
    var keys := grouped.keys;
    result := Empty();
    MapValuesOfFirstNone(grouped, PercentilesOfAges);
    for i := 0 to |keys|
      invariant result == MapValuesOfFirst(grouped, PercentilesOfAges, i)
    {
      MapValuesOfFirstStep(grouped, PercentilesOfAges, i);
      var town := keys[i];
      result := Put(result, town, Percentiles(grouped.values[town]));
    }
    MapValuesOfFirstAll(grouped, PercentilesOfAges);
  }

  datatype TownPercentiles = TownPercentiles(town: string, p50: real, p75: real, p99: real)

  /** `_get_percentiles_representation`: one entry per town, in key order, from indices 0, 1 and 2. */
  function PercentilesRepresentation(d: Dict<string, seq<real>>): (r: seq<TownPercentiles>)
    requires forall i :: 0 <= i < |d.keys| ==> d.keys[i] in d.values && |d.values[d.keys[i]]| >= 3
    ensures |r| == |d.keys|
    ensures forall i :: 0 <= i < |d.keys| ==>
      r[i] == TownPercentiles(d.keys[i], d.values[d.keys[i]][0], d.values[d.keys[i]][1], d.values[d.keys[i]][2])
  {
    seq(|d.keys|, i requires 0 <= i < |d.keys| =>
      var ps := d.values[d.keys[i]];
      TownPercentiles(d.keys[i], ps[0], ps[1], ps[2]))
  }

  /** The citizens paired with the ages `_calculate_age` gives them. */
  function Aged(cs: seq<Citizen>, ageOf: Date -> int): (r: seq<AgedCitizen>)
    ensures |r| == |cs| && forall i :: 0 <= i < |cs| ==> r[i] == AgedCitizen(cs[i].town, ageOf(cs[i].birthDate))
  {
    seq(|cs|, i requires 0 <= i < |cs| => AgedCitizen(cs[i].town, ageOf(cs[i].birthDate)))
  }

  function PercentileAgeResponse(cs: seq<Citizen>, ageOf: Date -> int): seq<TownPercentiles> {
    var g := GroupedOf(Aged(cs, ageOf));
    GroupedWellFormed(Aged(cs, ageOf));
    PercentilesOfGroupsComplete(g);
    PercentilesRepresentation(PercentilesOfGroups(g))
  }

  /** The `k`-th entry of the response is the `k`-th town with its three percentiles. */
  lemma ResponseEntry(cs: seq<Citizen>, ageOf: Date -> int, k: nat)
    requires k < |GroupedOf(Aged(cs, ageOf)).keys|
    ensures var a := Aged(cs, ageOf);
      var town := GroupedOf(a).keys[k];
      var ages := AgesIn(a, town);
      && |PercentileAgeResponse(cs, ageOf)| == |GroupedOf(a).keys|
      && ages != []
      && PercentileAgeResponse(cs, ageOf)[k] == TownPercentiles(town, Percentile(ages, 50), Percentile(ages, 75), Percentile(ages, 99))
  {
    var a := Aged(cs, ageOf);
    var g := GroupedOf(a);
    var town := g.keys[k];
    GroupedWellFormed(a);
    GroupedAges(a, town);
    assert town in SetOf(g.keys);
    var d := PercentilesOfGroups(g);
    assert d.values[town] == Percentiles(g.values[town]);
  }

  /**
   * One entry per town, in first-occurrence order; each carries the p50,
   * p75 and p99 of that town's ages, which are ordered and lie between the
   * youngest and the oldest age of the town.
   */
  lemma PercentileAgeResponseCorrect(cs: seq<Citizen>, ageOf: Date -> int)
    ensures var rep := PercentileAgeResponse(cs, ageOf);
      var a := Aged(cs, ageOf);
      var towns := Dedup(Towns(a));
      && |rep| == |towns|
      && forall k :: 0 <= k < |rep| ==>
           var ages := AgesIn(a, towns[k]);
           && rep[k].town == towns[k]
           && ages != []
           && rep[k].p50 == Percentile(ages, 50)
           && rep[k].p75 == Percentile(ages, 75)
           && rep[k].p99 == Percentile(ages, 99)
           && MinOf(ages) as real <= rep[k].p50 <= rep[k].p75 <= rep[k].p99 <= MaxOf(ages) as real
  {
    var a := Aged(cs, ageOf);
    var rep := PercentileAgeResponse(cs, ageOf);
    GroupedTowns(a);
    GroupedWellFormed(a);
    assert |rep| == |GroupedOf(a).keys|;
    forall k | 0 <= k < |rep|
      ensures var ages := AgesIn(a, Dedup(Towns(a))[k]);
           && rep[k].town == Dedup(Towns(a))[k]
           && ages != []
           && rep[k].p50 == Percentile(ages, 50)
           && rep[k].p75 == Percentile(ages, 75)
           && rep[k].p99 == Percentile(ages, 99)
           && MinOf(ages) as real <= rep[k].p50 <= rep[k].p75 <= rep[k].p99 <= MaxOf(ages) as real
    {
      ResponseEntry(cs, ageOf, k);
      PercentilesOrdered(AgesIn(a, Dedup(Towns(a))[k]));
    }
  }

  /** `get_percentile_age`: the response for the stored import with status 201, or the lookup's error. */
  method GetPercentileAge(db: ImportsCollection, importId: int, ageOf: Date -> int)
    returns (r: Result<(seq<TownPercentiles>, int), Error>)
    ensures r.Success? <==> 0 <= importId < |db.docs|
    ensures r.Failure? ==> r.error == PyMongoError(ImportNotFound)
    ensures r.Success? ==> r.value == (PercentileAgeResponse(db.Contents()[importId], ageOf), Created)
  {
    var citizens :- GetCitizens(db.Contents(), importId);
    var aged := Aged(citizens, ageOf);
    var grouped := GroupByTown(aged);
    GroupedWellFormed(aged);
    var percentiles := CalculatePercentile(grouped);
    PercentilesOfGroupsComplete(grouped);
    var data := PercentilesRepresentation(percentiles);
    return Success((data, Created));
  }
}

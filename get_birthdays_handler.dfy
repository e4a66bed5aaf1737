/**
 * GET of the birthdays aggregate: for every birth month, how many presents
 * each citizen buys for relatives born in that month. `counts[month][r]` is
 * how many times `r` occurs in the relatives lists of the citizens born in
 * `month`.
 */
module GetBirthdaysHandler {
  import opened Wrappers
  import opened Errors
  import opened Sequences
  import opened Dicts
  import opened Dates
  import opened Citizens
  import opened Store
  import opened Shared

  /** relative id -> number of presents */
  type Counts = Dict<int, nat>
  /** birth month -> counts */
  type BirthdaysData = Dict<nat, Counts>

  function Count(c: Counts, r: int): nat {
    if r in c.values then c.values[r] else 0
  }

  function InnerOf(d: BirthdaysData, month: nat): Counts {
    if month in d.values then d.values[month] else Empty()
  }

  /** `birthdays_data[month][relative_id] += 1` on the nested `defaultdict`. */
  function Increment(d: BirthdaysData, month: nat, r: int): BirthdaysData {
    var inner := InnerOf(d, month);
    Put(d, month, Put(inner, r, Count(inner, r) + 1))
  }

  /** The inner loop: one increment per entry of a relatives list. */
  function CountRelatives(d: BirthdaysData, month: nat, relatives: seq<int>): BirthdaysData {
    if relatives == [] then d
    else Increment(CountRelatives(d, month, relatives[..|relatives| - 1]), month, relatives[|relatives| - 1])
  }

  /** `_get_birthdays_data`, as the fold both loops compute. */
  function BirthdaysDataOf(cs: seq<Citizen>): BirthdaysData {
    if cs == [] then Empty()
    else
      var c := cs[|cs| - 1];
      CountRelatives(BirthdaysDataOf(cs[..|cs| - 1]), c.birthDate.month, c.relatives)
  }

  /** `_get_birthdays_data`. */
  method GetBirthdaysData(cs: seq<Citizen>) returns (d: BirthdaysData)
    ensures d == BirthdaysDataOf(cs)
  {
    d := Empty();
    for i := 0 to |cs|
      invariant d == BirthdaysDataOf(cs[..i])
    {
      var c := cs[i];
      var month := c.birthDate.month;
      ghost var start := d;
      for j := 0 to |c.relatives|
        invariant d == CountRelatives(start, month, c.relatives[..j])
      {
        var r := c.relatives[j];
        var inner := if month in d.values then d.values[month] else Empty();
        var n := if r in inner.values then inner.values[r] else 0;
        d := Put(d, month, Put(inner, r, n + 1));
        assert c.relatives[..j + 1][..j] == c.relatives[..j];
      }
      assert c.relatives[..|c.relatives|] == c.relatives;
      assert cs[..i + 1][..i] == cs[..i];
    }
    assert cs[..|cs|] == cs;
  }

  // ---------------------------------------------------------------- what the counts are

  /** How many times `r` occurs in the relatives lists of the citizens born in `month`. */
  function Presents(cs: seq<Citizen>, month: nat, r: int): nat {
    if cs == [] then 0
    else
      var c := cs[|cs| - 1];
      Presents(cs[..|cs| - 1], month, r) + (if c.birthDate.month == month then multiset(c.relatives)[r] else 0)
  }

  function Lookup(d: BirthdaysData, month: nat, r: int): nat {
    Count(InnerOf(d, month), r)
  }

  /** A valid dict with at least one relative, every count positive. */
  predicate WellFormedCounts(c: Counts) {
    Valid(c) && c.keys != [] && forall r :: r in c.values ==> c.values[r] > 0
  }

  /** Both levels are valid dicts, every month has a relative, every count is positive. */
  predicate WellFormedData(d: BirthdaysData) {
    Valid(d) && forall m :: m in d.values ==> WellFormedCounts(d.values[m])
  }

  lemma IncrementCountsWellFormed(c: Counts, r: int)
    requires Valid(c) && forall x :: x in c.values ==> c.values[x] > 0
    ensures WellFormedCounts(Put(c, r, Count(c, r) + 1))
  {
    PutValid(c, r, Count(c, r) + 1);
    assert r in SetOf(Put(c, r, Count(c, r) + 1).keys);
  }

  /** `+= 1` keeps both levels valid and every count positive. */
  lemma IncrementWellFormed(d: BirthdaysData, month: nat, r: int)
    requires WellFormedData(d)
    ensures WellFormedData(Increment(d, month, r))
  {
    var inner := InnerOf(d, month);
    assert Valid(inner) && forall x :: x in inner.values ==> inner.values[x] > 0 by {
      if month in d.values {
        assert WellFormedCounts(d.values[month]);
      }
    }
    var inner' := Put(inner, r, Count(inner, r) + 1);
    IncrementCountsWellFormed(inner, r);
    PutValid(d, month, inner');
    var d' := Increment(d, month, r);
    assert d'.values == d.values[month := inner'];
    forall m | m in d'.values ensures WellFormedCounts(d'.values[m]) {
      if m != month {
        assert d'.values[m] == d.values[m];
      }
    }
  }

  /** `+= 1` raises exactly one count, by one. */
  lemma IncrementLookup(d: BirthdaysData, month: nat, r: int, m: nat, x: int)
    requires WellFormedData(d)
    ensures Lookup(Increment(d, month, r), m, x) == Lookup(d, m, x) + (if m == month && x == r then 1 else 0)
  {
    var inner := InnerOf(d, month);
    PutValid(inner, r, Count(inner, r) + 1);
    PutValid(d, month, Put(inner, r, Count(inner, r) + 1));
  }

  /** A new month goes last, and every other month keeps its counts. */
  lemma IncrementMonths(d: BirthdaysData, month: nat, r: int)
    requires WellFormedData(d)
    ensures var d' := Increment(d, month, r);
      && d'.keys == (if month in d.values then d.keys else d.keys + [month])
      && d'.values.Keys == d.values.Keys + {month}
      && (forall m :: m != month && m in d.values ==> d'.values[m] == d.values[m])
  {
    var inner := InnerOf(d, month);
    PutValid(d, month, Put(inner, r, Count(inner, r) + 1));
  }

  lemma {:induction false} CountRelativesWellFormed(d: BirthdaysData, month: nat, relatives: seq<int>)
    requires WellFormedData(d)
    ensures WellFormedData(CountRelatives(d, month, relatives))
  {
    if relatives != [] {
      var init, last := relatives[..|relatives| - 1], relatives[|relatives| - 1];
      CountRelativesWellFormed(d, month, init);
      IncrementWellFormed(CountRelatives(d, month, init), month, last);
    }
  }

  /** The inner loop adds the multiplicity of each relative to its count for the month. */
  lemma {:induction false} CountRelativesLookup(d: BirthdaysData, month: nat, relatives: seq<int>, m: nat, x: int)
    requires WellFormedData(d)
    ensures Lookup(CountRelatives(d, month, relatives), m, x) == Lookup(d, m, x) + (if m == month then multiset(relatives)[x] else 0)
  {
    if relatives != [] {
      var init, last := relatives[..|relatives| - 1], relatives[|relatives| - 1];
      CountRelativesLookup(d, month, init, m, x);
      CountRelativesWellFormed(d, month, init);
      IncrementLookup(CountRelatives(d, month, init), month, last, m, x);
      assert relatives == init + [last];
      assert multiset(relatives) == multiset(init) + multiset{last};
    }
  }

  lemma {:induction false} CountRelativesMonths(d: BirthdaysData, month: nat, relatives: seq<int>)
    requires WellFormedData(d)
    ensures var d' := CountRelatives(d, month, relatives);
      && d'.keys == (if month in d.values || relatives == [] then d.keys else d.keys + [month])
      && d'.values.Keys == d.values.Keys + (if relatives == [] then {} else {month})
      && (forall m :: m != month && m in d.values ==> d'.values[m] == d.values[m])
  {
    if relatives != [] {
      var init, last := relatives[..|relatives| - 1], relatives[|relatives| - 1];
      CountRelativesMonths(d, month, init);
      CountRelativesWellFormed(d, month, init);
      IncrementMonths(CountRelatives(d, month, init), month, last);
    }
  }

  lemma IncrementOrder(d: BirthdaysData, month: nat, r: int)
    requires Valid(InnerOf(d, month))
    ensures InnerOf(Increment(d, month, r), month).keys ==
      if r in SetOf(InnerOf(d, month).keys) then InnerOf(d, month).keys else InnerOf(d, month).keys + [r]
  {
  }

  lemma InnerValid(d: BirthdaysData, month: nat)
    requires WellFormedData(d)
    ensures Valid(InnerOf(d, month))
  {
    if month in d.values {
      assert WellFormedCounts(d.values[month]);
    }
  }

  /** An increment extends the first-occurrence order of the relatives seen so far. */
  lemma IncrementOrderDedup(d: BirthdaysData, month: nat, seen: seq<int>, r: int)
    requires Valid(InnerOf(d, month)) && InnerOf(d, month).keys == Dedup(seen)
    ensures InnerOf(Increment(d, month, r), month).keys == Dedup(seen + [r])
  {
    IncrementOrder(d, month, r);
    DedupSnoc(seen, r);
  }

  lemma {:induction false} CountRelativesOrder(d: BirthdaysData, month: nat, relatives: seq<int>)
    requires WellFormedData(d)
    ensures InnerOf(CountRelatives(d, month, relatives), month).keys == Dedup(InnerOf(d, month).keys + relatives)
  {
    var before := InnerOf(d, month).keys;
    if relatives == [] {
      assert before + relatives == before;
      InnerValid(d, month);
      DedupOfDistinct(before);
    } else {
      var init, last := relatives[..|relatives| - 1], relatives[|relatives| - 1];
      CountRelativesOrder(d, month, init);
      CountRelativesWellFormed(d, month, init);
      InnerValid(CountRelatives(d, month, init), month);
      IncrementOrderDedup(CountRelatives(d, month, init), month, before + init, last);
      AppendSnoc(before, relatives);
    }
  }

  /** Deduplicating a sequence without repetitions changes nothing. */
  lemma {:induction false} DedupOfDistinct(s: seq<int>)
    requires Distinct(s)
    ensures Dedup(s) == s
  {
    if s != [] {
      var init := s[..|s| - 1];
      assert Distinct(init);
      DedupOfDistinct(init);
      assert s[|s| - 1] !in init;
      assert s == init + [s[|s| - 1]];
    }
  }

  /** Deduplicating a prefix first does not change the first-occurrence order. */
  lemma {:induction false} DedupAppend(a: seq<int>, b: seq<int>)
    ensures Dedup(Dedup(a) + b) == Dedup(a + b)
  {
    if b == [] {
      assert Dedup(a) + b == Dedup(a) && a + b == a;
      DedupOfDistinct(Dedup(a));
    } else {
      var init, last := b[..|b| - 1], b[|b| - 1];
      DedupAppend(a, init);
      assert Dedup(a) + b == (Dedup(a) + init) + [last];
      assert a + b == (a + init) + [last];
      DedupSnoc(Dedup(a) + init, last);
      DedupSnoc(a + init, last);
      assert SetOf(Dedup(a) + init) == SetOf(a + init) by {
        assert SetOf(Dedup(a) + init) == SetOf(Dedup(a)) + SetOf(init);
        assert SetOf(a + init) == SetOf(a) + SetOf(init);
      }
      assert last in Dedup(a) + init <==> last in a + init by {
        assert last in Dedup(a) + init <==> last in SetOf(Dedup(a) + init);
        assert last in a + init <==> last in SetOf(a + init);
      }
    }
  }

  /** The birth months of the citizens with relatives, in list order. */
  function MonthsWithRelatives(cs: seq<Citizen>): seq<nat> {
    if cs == [] then []
    else
      var c := cs[|cs| - 1];
      MonthsWithRelatives(cs[..|cs| - 1]) + (if c.relatives != [] then [c.birthDate.month] else [])
  }

  /** The relatives lists of the citizens born in `month`, concatenated in list order. */
  function RelativesIn(cs: seq<Citizen>, month: nat): seq<int> {
    if cs == [] then []
    else
      var c := cs[|cs| - 1];
      RelativesIn(cs[..|cs| - 1], month) + (if c.birthDate.month == month then c.relatives else [])
  }

  lemma {:induction false} BirthdaysDataWellFormed(cs: seq<Citizen>)
    ensures WellFormedData(BirthdaysDataOf(cs))
  {
    if cs != [] {
      var c := cs[|cs| - 1];
      BirthdaysDataWellFormed(cs[..|cs| - 1]);
      CountRelativesWellFormed(BirthdaysDataOf(cs[..|cs| - 1]), c.birthDate.month, c.relatives);
    }
  }

  lemma {:induction false} BirthdaysDataLookup(cs: seq<Citizen>, m: nat, r: int)
    ensures Lookup(BirthdaysDataOf(cs), m, r) == Presents(cs, m, r)
  {
    if cs != [] {
      var init, c := cs[..|cs| - 1], cs[|cs| - 1];
      BirthdaysDataLookup(init, m, r);
      BirthdaysDataWellFormed(init);
      CountRelativesLookup(BirthdaysDataOf(init), c.birthDate.month, c.relatives, m, r);
    }
  }

  /** Every count of `_get_birthdays_data` is the number of presents it stands for. */
  lemma BirthdaysDataCounts(cs: seq<Citizen>)
    ensures WellFormedData(BirthdaysDataOf(cs))
    ensures forall m, r :: Lookup(BirthdaysDataOf(cs), m, r) == Presents(cs, m, r)
  {
    BirthdaysDataWellFormed(cs);
    forall m, r ensures Lookup(BirthdaysDataOf(cs), m, r) == Presents(cs, m, r) {
      BirthdaysDataLookup(cs, m, r);
    }
  }

  /** The months are those of the citizens who have relatives, in first-occurrence order. */
  lemma {:induction false} BirthdaysDataMonths(cs: seq<Citizen>)
    ensures BirthdaysDataOf(cs).keys == Dedup(MonthsWithRelatives(cs))
    ensures BirthdaysDataOf(cs).values.Keys == SetOf(MonthsWithRelatives(cs))
  {
    if cs != [] {
      var init, c := cs[..|cs| - 1], cs[|cs| - 1];
      var d := BirthdaysDataOf(init);
      var month := c.birthDate.month;
      BirthdaysDataMonths(init);
      BirthdaysDataWellFormed(init);
      CountRelativesMonths(d, month, c.relatives);
      var months := MonthsWithRelatives(init);
      if c.relatives != [] {
        DedupSnoc(months, month);
        assert month in months <==> month in SetOf(months);
        assert SetOf(months + [month]) == SetOf(months) + {month};
      } else {
        assert MonthsWithRelatives(cs) == months;
        assert BirthdaysDataOf(cs) == d;
      }
    }
  }

  /** Within a month, the relatives appear in first-occurrence order. */
  lemma {:induction false} BirthdaysDataOrder(cs: seq<Citizen>, m: nat)
    ensures InnerOf(BirthdaysDataOf(cs), m).keys == Dedup(RelativesIn(cs, m))
  {
    if cs != [] {
      var init, c := cs[..|cs| - 1], cs[|cs| - 1];
      var d := BirthdaysDataOf(init);
      BirthdaysDataOrder(init, m);
      BirthdaysDataWellFormed(init);
      if c.birthDate.month == m {
        CountRelativesOrder(d, m, c.relatives);
        DedupAppend(RelativesIn(init, m), c.relatives);
      } else {
        CountRelativesMonths(d, c.birthDate.month, c.relatives);
        assert RelativesIn(cs, m) == RelativesIn(init, m);
        assert InnerOf(BirthdaysDataOf(cs), m) == InnerOf(d, m);
      }
    }
  }

  /** A relative gets presents for a month exactly when a citizen born then lists them. */
  lemma {:induction false} PresentsPositive(cs: seq<Citizen>, month: nat, r: int)
    ensures Presents(cs, month, r) > 0 <==> exists i :: 0 <= i < |cs| && cs[i].birthDate.month == month && r in cs[i].relatives
  {
    if cs != [] {
      var init := cs[..|cs| - 1];
      PresentsPositive(init, month, r);
      if exists i :: 0 <= i < |init| && init[i].birthDate.month == month && r in init[i].relatives {
        var i :| 0 <= i < |init| && init[i].birthDate.month == month && r in init[i].relatives;
        assert cs[i] == init[i];
      }
      if exists i :: 0 <= i < |cs| && cs[i].birthDate.month == month && r in cs[i].relatives {
        var i :| 0 <= i < |cs| && cs[i].birthDate.month == month && r in cs[i].relatives;
        if i < |init| { assert init[i] == cs[i]; }
      }
    }
  }

  /** No relatives anywhere, and only then, gives an empty aggregate. */
  lemma EmptyWithoutRelatives(cs: seq<Citizen>)
    ensures BirthdaysDataOf(cs).keys == [] <==> forall i :: 0 <= i < |cs| ==> cs[i].relatives == []
  {
    BirthdaysDataMonths(cs);
    DedupEmpty(MonthsWithRelatives(cs));
    MonthsWithRelativesEmpty(cs);
  }

  lemma DedupEmpty(s: seq<int>)
    ensures Dedup(s) == [] <==> s == []
  {
    if s != [] {
      assert s[0] in SetOf(s);
    }
  }

  lemma {:induction false} MonthsWithRelativesEmpty(cs: seq<Citizen>)
    ensures MonthsWithRelatives(cs) == [] <==> forall i :: 0 <= i < |cs| ==> cs[i].relatives == []
  {
    if cs != [] {
      var init := cs[..|cs| - 1];
      MonthsWithRelativesEmpty(init);
      if forall i :: 0 <= i < |init| ==> init[i].relatives == [] {
        if cs[|cs| - 1].relatives == [] {
          forall i | 0 <= i < |cs| ensures cs[i].relatives == [] {
            if i < |init| { assert cs[i] == init[i]; }
          }
        }
      } else {
        var i :| 0 <= i < |init| && init[i].relatives != [];
        assert cs[i] == init[i];
      }
    }
  }

  // ---------------------------------------------------------------- the total

  function InnerTotal(c: Counts): nat {
    SumOver(c.keys, k => Count(c, k))
  }

  /** The number of presents bought in all. */
  function Total(d: BirthdaysData): nat {
    SumOver(d.keys, m => InnerTotal(InnerOf(d, m)))
  }

  function TotalRelatives(cs: seq<Citizen>): nat {
    if cs == [] then 0 else TotalRelatives(cs[..|cs| - 1]) + |cs[|cs| - 1].relatives|
  }

  lemma IncrementInnerTotal(c: Counts, r: int)
    requires Valid(c)
    ensures InnerTotal(Put(c, r, Count(c, r) + 1)) == InnerTotal(c) + 1
  {
    if r in c.values {
      BumpExistingTotal(c, r);
    } else {
      BumpNewTotal(c, r);
    }
  }

  lemma BumpExistingTotal(c: Counts, r: int)
    requires Valid(c) && r in c.values
    ensures InnerTotal(Put(c, r, Count(c, r) + 1)) == InnerTotal(c) + 1
  {
    var c' := Dict(c.keys, c.values[r := c.values[r] + 1]);
    assert Put(c, r, Count(c, r) + 1) == c';
    var f, g := k => Count(c, k), k => Count(c', k);
    assert r in SetOf(c.keys);
    SumOverBump(c.keys, f, g, r);
  }

  lemma BumpNewTotal(c: Counts, r: int)
    requires Valid(c) && r !in c.values
    ensures InnerTotal(Put(c, r, Count(c, r) + 1)) == InnerTotal(c) + 1
  {
    var c' := Dict(c.keys + [r], c.values[r := 1]);
    assert Put(c, r, Count(c, r) + 1) == c';
    var f, g := k => Count(c, k), k => Count(c', k);
    assert r !in SetOf(c.keys);
    SumOverNewKey(c.keys, f, g, r);
  }

  /** An increment raises the month's inner total by one and leaves the other months' totals alone. */
  lemma IncrementMonthTotals(d: BirthdaysData, month: nat, r: int)
    requires WellFormedData(d)
    ensures InnerTotal(InnerOf(Increment(d, month, r), month)) == InnerTotal(InnerOf(d, month)) + 1
    ensures forall x :: x != month ==> InnerOf(Increment(d, month, r), x) == InnerOf(d, x)
  {
    var inner := InnerOf(d, month);
    InnerValid(d, month);
    IncrementInnerTotal(inner, r);
  }

  lemma IncrementTotal(d: BirthdaysData, month: nat, r: int)
    requires WellFormedData(d)
    ensures Total(Increment(d, month, r)) == Total(d) + 1
  {
    var d' := Increment(d, month, r);
    IncrementMonthTotals(d, month, r);
    var f := m => InnerTotal(InnerOf(d, m));
    var g := m => InnerTotal(InnerOf(d', m));
    assert g(month) == f(month) + 1;
    assert forall x :: x != month ==> g(x) == f(x);
    PutValid(d, month, InnerOf(d', month));
    if month in d.values {
      assert month in SetOf(d.keys);
      SumOverBump(d.keys, f, g, month);
    } else {
      assert month !in SetOf(d.keys);
      assert f(month) == 0 by { assert InnerOf(d, month).keys == []; }
      SumOverNewKey(d.keys, f, g, month);
    }
  }

  lemma {:induction false} CountRelativesTotal(d: BirthdaysData, month: nat, relatives: seq<int>)
    requires WellFormedData(d)
    ensures Total(CountRelatives(d, month, relatives)) == Total(d) + |relatives|
  {
    if relatives != [] {
      var init := relatives[..|relatives| - 1];
      CountRelativesTotal(d, month, init);
      CountRelativesWellFormed(d, month, init);
      IncrementTotal(CountRelatives(d, month, init), month, relatives[|relatives| - 1]);
    }
  }

  /** All counts together are as many presents as there are entries in all relatives lists. */
  lemma {:induction false} BirthdaysDataTotal(cs: seq<Citizen>)
    ensures Total(BirthdaysDataOf(cs)) == TotalRelatives(cs)
  {
    if cs != [] {
      var init := cs[..|cs| - 1];
      BirthdaysDataTotal(init);
      BirthdaysDataWellFormed(init);
      CountRelativesTotal(BirthdaysDataOf(init), cs[|cs| - 1].birthDate.month, cs[|cs| - 1].relatives);
    }
  }

  // ---------------------------------------------------------------- the response

  /** `str(n)` of a natural number. */
  function NatToString(n: nat): (s: string)
    ensures AllDigits(s) && |s| > 0
  {
    if n < 10 then [Digit(n)] else NatToString(n / 10) + [Digit(n % 10)]
  }

  lemma {:induction false} NatToStringValue(n: nat)
    ensures DecimalValue(NatToString(n)) == n
  {
    var s := NatToString(n);
    if n >= 10 {
      NatToStringValue(n / 10);
      assert s[..|s| - 1] == NatToString(n / 10);
    } else {
      assert s[..0] == [];
    }
  }

  /** Different numbers are written differently. */
  lemma NatToStringInjective(a: nat, b: nat)
    requires NatToString(a) == NatToString(b)
    ensures a == b
  {
    NatToStringValue(a);
    NatToStringValue(b);
  }

  /** The keys `'1'` .. `'12'`, in order. */
  function MonthNames(): (r: seq<string>)
    ensures |r| == 12 && forall i :: 0 <= i < 12 ==> r[i] == NatToString(i + 1)
  {
    seq(12, i requires 0 <= i < 12 => NatToString(i + 1))
  }

  datatype Present = Present(citizenId: int, presents: nat)

  /** month name -> the presents bought in that month */
  type Representation = Dict<string, seq<Present>>

  /** `[{'citizen_id': key, 'presents': value} for key, value in counts.items()]` */
  function PresentsOf(c: Counts): (r: seq<Present>)
    ensures |r| == |c.keys| && forall i :: 0 <= i < |c.keys| ==> r[i] == Present(c.keys[i], Count(c, c.keys[i]))
  {
    seq(|c.keys|, i requires 0 <= i < |c.keys| => Present(c.keys[i], Count(c, c.keys[i])))
  }

  /** `{str(i): [] for i in range(1, 13)}` */
  function InitialMonths(): Representation {
    Dict(MonthNames(), map k | k in SetOf(MonthNames()) :: [])
  }

  /** The loop of `_get_birthdays_representation` over the given months. */
  function FillMonths(data: BirthdaysData, months: seq<nat>): Representation {
    if months == [] then InitialMonths()
    else
      var m := months[|months| - 1];
      Put(FillMonths(data, months[..|months| - 1]), NatToString(m), PresentsOf(InnerOf(data, m)))
  }

  /** `_get_birthdays_representation`. */
  method GetBirthdaysRepresentation(data: BirthdaysData) returns (months: Representation)
    ensures months == FillMonths(data, data.keys)
  {
    months := InitialMonths();
    for i := 0 to |data.keys|
      invariant months == FillMonths(data, data.keys[..i])
    {
      var month := data.keys[i];
      var presents := PresentsOf(InnerOf(data, month));
      assert data.keys[..i + 1][..i] == data.keys[..i];
      months := Put(months, NatToString(month), presents);
    }
    assert data.keys[..|data.keys|] == data.keys;
  }

  lemma MonthNameIn(m: nat)
    requires 1 <= m <= 12
    ensures NatToString(m) in SetOf(MonthNames())
  {
    assert MonthNames()[m - 1] == NatToString(m);
  }

  /** Filling months keeps exactly the twelve keys, in order. */
  lemma {:induction false} FillMonthsKeys(data: BirthdaysData, months: seq<nat>)
    requires forall i :: 0 <= i < |months| ==> 1 <= months[i] <= 12
    ensures FillMonths(data, months).keys == MonthNames()
    ensures FillMonths(data, months).values.Keys == SetOf(MonthNames())
  {
    if months != [] {
      FillMonthsKeys(data, months[..|months| - 1]);
      MonthNameIn(months[|months| - 1]);
    }
  }

  /** A month holds its presents once it was filled, `[]` before. */
  lemma {:induction false} FillMonthsAt(data: BirthdaysData, months: seq<nat>, m: nat)
    requires 1 <= m <= 12
    ensures NatToString(m) in FillMonths(data, months).values
    ensures FillMonths(data, months).values[NatToString(m)] == if m in months then PresentsOf(InnerOf(data, m)) else []
  {
    if months == [] {
      MonthNameIn(m);
    } else {
      var init, last := months[..|months| - 1], months[|months| - 1];
      FillMonthsAt(data, init, m);
      var prev := FillMonths(data, init);
      var key := NatToString(last);
      assert FillMonths(data, months).values == prev.values[key := PresentsOf(InnerOf(data, last))];
      assert months == init + [last];
      assert m in months <==> m in init || m == last;
      if m != last && NatToString(m) == key {
        NatToStringInjective(m, last);
      }
    }
  }

  /** `_get_birthdays_data` followed by `_get_birthdays_representation`. */
  function BirthdaysResponse(cs: seq<Citizen>): Representation {
    FillMonths(BirthdaysDataOf(cs), BirthdaysDataOf(cs).keys)
  }

  lemma {:induction false} MonthsWithRelativesFrom(cs: seq<Citizen>)
    ensures forall m :: m in MonthsWithRelatives(cs) ==> exists i :: 0 <= i < |cs| && cs[i].birthDate.month == m
  {
    if cs != [] {
      var init := cs[..|cs| - 1];
      MonthsWithRelativesFrom(init);
      forall m | m in MonthsWithRelatives(cs) ensures exists i :: 0 <= i < |cs| && cs[i].birthDate.month == m {
        if m in MonthsWithRelatives(init) {
          var i :| 0 <= i < |init| && init[i].birthDate.month == m;
          assert cs[i] == init[i];
        } else {
          assert cs[|cs| - 1].birthDate.month == m;
        }
      }
    }
  }

  /**
   * The response has exactly the keys `'1'` .. `'12'`; each month lists, in
   * first-occurrence order, every relative named by a citizen born in it
   * with the number of presents for them, and is `[]` when nobody born in it
   * has relatives.
   */
  lemma BirthdaysResponseCorrect(cs: seq<Citizen>)
    requires forall i :: 0 <= i < |cs| ==> ValidDate(cs[i].birthDate)
    ensures var rep := BirthdaysResponse(cs);
      && rep.keys == MonthNames()
      && forall m :: 1 <= m <= 12 ==>
           NatToString(m) in rep.values &&
           var ps := rep.values[NatToString(m)];
           var rs := Dedup(RelativesIn(cs, m));
           |ps| == |rs| && forall k :: 0 <= k < |rs| ==> ps[k] == Present(rs[k], Presents(cs, m, rs[k]))
  {
    var d := BirthdaysDataOf(cs);
    BirthdaysDataMonths(cs);
    BirthdaysDataCounts(cs);
    MonthsWithRelativesFrom(cs);
    assert forall i :: 0 <= i < |d.keys| ==> 1 <= d.keys[i] <= 12 by {
      forall i | 0 <= i < |d.keys| ensures 1 <= d.keys[i] <= 12 {
        assert d.keys[i] in SetOf(d.keys);
        assert d.keys[i] in SetOf(MonthsWithRelatives(cs));
      }
    }
    FillMonthsKeys(d, d.keys);
    forall m | 1 <= m <= 12
      ensures NatToString(m) in BirthdaysResponse(cs).values
      ensures var ps := BirthdaysResponse(cs).values[NatToString(m)];
        var rs := Dedup(RelativesIn(cs, m));
        |ps| == |rs| && forall k :: 0 <= k < |rs| ==> ps[k] == Present(rs[k], Presents(cs, m, rs[k]))
    {
      FillMonthsAt(d, d.keys, m);
      BirthdaysDataOrder(cs, m);
      if m !in d.keys {
        assert m !in SetOf(d.keys);
        assert InnerOf(d, m).keys == [];
      }
    }
  }

  /** `get_birthdays`: the response for the stored import with status 201, or the lookup's error. */
  method GetBirthdays(db: ImportsCollection, importId: int) returns (r: Result<(Representation, int), Error>)
    ensures r.Success? <==> 0 <= importId < |db.docs|
    ensures r.Failure? ==> r.error == PyMongoError(ImportNotFound)
    ensures r.Success? ==> r.value == (BirthdaysResponse(db.Contents()[importId]), Created)
  {
    var citizens :- GetCitizens(db.Contents(), importId);
    var data := GetBirthdaysData(citizens);
    var months := GetBirthdaysRepresentation(data);
    return Success((months, Created));
  }
}

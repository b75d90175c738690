/**
 * The computations of the Getaround delay-analysis dashboard over the cleaned
 * rentals extract: the threshold simulator, which says what share of the late
 * rentals of a scope a minimum delay between two rentals would have absorbed,
 * and the bar chart that counts late rentals per delay range.
 *
 * The extract is a sequence of rows; a pandas boolean mask is `Masks.Filter`.
 * Percentages are exact rationals: float division and the rounding to two
 * decimals are not modelled.
 */
module Getaround {
  import opened Masks

  datatype Option<T> = None | Some(value: T)

  /**
   * One row of the cleaned rentals extract, reduced to the three columns the
   * modelled code reads. A missing delay or delay range (NaN) is `None`; a
   * missing checkin type is any string other than "connect", which is how
   * NaN compares with "connect".
   */
  datatype Rental = Rental(delayAtCheckout: Option<int>, checkinType: string, delayRange: Option<string>)

  datatype Error =
    | DivisionByZero                      // no late rental in the scope
    | MissingLabels(labels: seq<string>)  // labels asked of value_counts that it does not hold

  datatype Result<T> = Ok(value: T) | Err(error: Error)

  const Connect: string := "connect"

  // ---------------------------------------------------------------------------
  // The threshold simulator
  // ---------------------------------------------------------------------------

  /** A positive delay at checkout; a missing delay compares false. */
  predicate IsLate(r: Rental)
  {
    r.delayAtCheckout.Some? && r.delayAtCheckout.value > 0
  }

  /** The mask of the "connect" branch: late, and checked in with Connect. */
  predicate IsConnectLate(r: Rental)
  {
    IsLate(r) && r.checkinType == Connect
  }

  /** A delay at checkout of at most `threshold` minutes. */
  function WithinThreshold(threshold: int): Rental -> bool
  {
    (r: Rental) => r.delayAtCheckout.Some? && r.delayAtCheckout.value <= threshold
  }

  /** Whether `r` is one of the late rentals of `scope`. */
  predicate Counted(r: Rental, scope: string)
  {
    IsLate(r) && (scope == Connect ==> r.checkinType == Connect)
  }

  function CountedIn(scope: string): Rental -> bool
  {
    (r: Rental) => Counted(r, scope)
  }

  /** Whether `r` is a late rental of `scope` that `threshold` would absorb. */
  function SolvedIn(scope: string, threshold: int): Rental -> bool
  {
    Both(CountedIn(scope), WithinThreshold(threshold))
  }

  /**
   * The late rentals of `scope` (DASHBOARD/getaround.py:465-466, 470-471):
   * only scope "connect" looks at the checkin type, every other scope value
   * takes all late rentals.
   */
  function LateRentals(rs: seq<Rental>, scope: string): seq<Rental>
  {
    if scope == Connect then Filter(rs, IsConnectLate) else Filter(rs, IsLate)
  }

  /**
   * The late rentals of `scope` hold every row of the table that is late in
   * the scope, as often as the table does, and nothing else; there are none
   * exactly when no row is late in the scope.
   */
  lemma LateRentalsContents(rs: seq<Rental>, scope: string)
    ensures forall r :: multiset(LateRentals(rs, scope))[r] == if Counted(r, scope) then multiset(rs)[r] else 0
    ensures forall r :: r in LateRentals(rs, scope) <==> r in rs && Counted(r, scope)
    ensures LateRentals(rs, scope) == [] <==> forall r :: r in rs ==> !Counted(r, scope)
  {
    var late := LateRentals(rs, scope);
    if scope == Connect {
      FilterContents(rs, IsConnectLate);
    } else {
      FilterContents(rs, IsLate);
    }
    assert late != [] ==> late[0] in late;
  }

  /** The late rentals whose delay is within the threshold (DASHBOARD/getaround.py:467, 472). */
  function SolvedRentals(late: seq<Rental>, threshold: int): seq<Rental>
  {
    Filter(late, WithinThreshold(threshold))
  }

  /** `solved / late * 100`, exactly. */
  function Percentage(solved: nat, late: nat): (p: real)
    requires late > 0
    ensures solved <= late ==> 0.0 <= p <= 100.0
  {
    (solved as real / late as real) * 100.0
  }

  /**
   * The share, in percent, of the late rentals of `scope` whose delay is at
   * most `threshold`; a scope without late rentals divides by zero.
   */
  function ResolvedRentals(rs: seq<Rental>, threshold: int, scope: string): (result: Result<real>)
    ensures result.Err? <==> forall r :: r in rs ==> !Counted(r, scope)
    ensures result.Err? ==> result.error == DivisionByZero
    ensures result.Ok? ==> 0.0 <= result.value <= 100.0
  {
    LateRentalsContents(rs, scope);
    var late := LateRentals(rs, scope);
    var solved := SolvedRentals(late, threshold);
    if |late| == 0 then Err(DivisionByZero)
    else Ok(Percentage(|solved|, |late|))
  }

  /** The denominator is the number of late rentals of the scope in the whole table. */
  lemma LateCount(rs: seq<Rental>, scope: string)
    ensures |LateRentals(rs, scope)| == Count(rs, CountedIn(scope))
  {
    var keep := if scope == Connect then IsConnectLate else IsLate;
    FilterLength(rs, keep);
    CountPointwise(rs, rs, keep, CountedIn(scope));
  }

  /** The numerator is the number of late rentals of the scope within the threshold. */
  lemma SolvedCount(rs: seq<Rental>, threshold: int, scope: string)
    ensures |SolvedRentals(LateRentals(rs, scope), threshold)| == Count(rs, SolvedIn(scope, threshold))
  {
    var keep := if scope == Connect then IsConnectLate else IsLate;
    FilterOfFilter(rs, keep, WithinThreshold(threshold));
    FilterLength(rs, Both(keep, WithinThreshold(threshold)));
    CountPointwise(rs, rs, Both(keep, WithinThreshold(threshold)), SolvedIn(scope, threshold));
  }

  /**
   * The simulator agrees with a one-pass count over the raw table of the rows
   * each filter would keep.
   */
  lemma ResolvedByCounts(rs: seq<Rental>, threshold: int, scope: string)
    ensures ResolvedRentals(rs, threshold, scope) ==
      if Count(rs, CountedIn(scope)) == 0 then Err(DivisionByZero)
      else Ok(Percentage(Count(rs, SolvedIn(scope, threshold)), Count(rs, CountedIn(scope))))
  {
    LateCount(rs, scope);
    SolvedCount(rs, threshold, scope);
  }

  lemma PercentageMonotone(s1: nat, s2: nat, late: nat)
    requires late > 0 && s1 <= s2
    ensures Percentage(s1, late) <= Percentage(s2, late)
  {
    assert (s1 as real) / (late as real) <= (s2 as real) / (late as real);
  }

  /** Raising the threshold never lowers the share of solved rentals. */
  lemma ResolvedMonotone(rs: seq<Rental>, scope: string, t1: int, t2: int)
    requires t1 <= t2
    ensures ResolvedRentals(rs, t1, scope).Ok? == ResolvedRentals(rs, t2, scope).Ok?
    ensures ResolvedRentals(rs, t1, scope).Ok? ==>
      ResolvedRentals(rs, t1, scope).value <= ResolvedRentals(rs, t2, scope).value
  {
    ResolvedByCounts(rs, t1, scope);
    ResolvedByCounts(rs, t2, scope);
    CountMonotone(rs, SolvedIn(scope, t1), SolvedIn(scope, t2));
    if Count(rs, CountedIn(scope)) > 0 {
      PercentageMonotone(Count(rs, SolvedIn(scope, t1)), Count(rs, SolvedIn(scope, t2)), Count(rs, CountedIn(scope)));
    }
  }

  lemma PercentageZero(solved: nat, late: nat)
    requires late > 0
    ensures Percentage(solved, late) == 0.0 <==> solved == 0
  {
  }

  lemma PercentageFull(solved: nat, late: nat)
    requires late > 0
    ensures Percentage(solved, late) == 100.0 <==> solved == late
  {
  }

  /** The scope has a late rental exactly when the denominator is positive. */
  lemma SomeCounted(rs: seq<Rental>, scope: string)
    ensures Count(rs, CountedIn(scope)) > 0 <==> exists r :: r in rs && Counted(r, scope)
  {
    CountZero(rs, CountedIn(scope));
  }

  /** The result is 0 exactly when the scope has late rentals and none is within the threshold. */
  lemma ResolvedNoneIff(rs: seq<Rental>, threshold: int, scope: string)
    ensures ResolvedRentals(rs, threshold, scope) == Ok(0.0) <==>
      (exists r :: r in rs && Counted(r, scope)) &&
      (forall r :: r in rs && Counted(r, scope) ==> r.delayAtCheckout.value > threshold)
  {
    var late, solved := Count(rs, CountedIn(scope)), Count(rs, SolvedIn(scope, threshold));
    ResolvedByCounts(rs, threshold, scope);
    SomeCounted(rs, scope);
    CountZero(rs, SolvedIn(scope, threshold));
    if late > 0 {
      PercentageZero(solved, late);
    }
  }

  /** The result is 100 exactly when the scope has late rentals and all are within the threshold. */
  lemma ResolvedAllIff(rs: seq<Rental>, threshold: int, scope: string)
    ensures ResolvedRentals(rs, threshold, scope) == Ok(100.0) <==>
      (exists r :: r in rs && Counted(r, scope)) &&
      (forall r :: r in rs && Counted(r, scope) ==> r.delayAtCheckout.value <= threshold)
  {
    var late, solved := Count(rs, CountedIn(scope)), Count(rs, SolvedIn(scope, threshold));
    ResolvedByCounts(rs, threshold, scope);
    SomeCounted(rs, scope);
    CountBothFull(rs, CountedIn(scope), WithinThreshold(threshold));
    if late > 0 {
      PercentageFull(solved, late);
    }
  }

  /** A threshold of zero or less solves nothing: every late delay is positive. */
  lemma NonPositiveThresholdSolvesNone(rs: seq<Rental>, threshold: int, scope: string)
    requires threshold <= 0
    ensures ResolvedRentals(rs, threshold, scope).Ok? ==> ResolvedRentals(rs, threshold, scope).value == 0.0
  {
    ResolvedNoneIff(rs, threshold, scope);
  }

  /** A threshold at or above every late delay of the scope solves everything. */
  lemma CoveringThresholdSolvesAll(rs: seq<Rental>, threshold: int, scope: string)
    requires forall r :: r in rs && Counted(r, scope) ==> r.delayAtCheckout.value <= threshold
    ensures ResolvedRentals(rs, threshold, scope).Ok? ==> ResolvedRentals(rs, threshold, scope).value == 100.0
  {
    ResolvedAllIff(rs, threshold, scope);
  }

  /** Every scope other than "connect" behaves as "all". */
  lemma OtherScopesAreAll(rs: seq<Rental>, threshold: int, scope: string)
    requires scope != Connect
    ensures ResolvedRentals(rs, threshold, scope) == ResolvedRentals(rs, threshold, "all")
  {
  }

  /**
   * The result depends only on the delays and, for scope "connect", on which
   * rows were checked in with Connect; any other scope ignores the checkin type.
   */
  lemma ResolvedReadsOnlyItsColumns(rs: seq<Rental>, other: seq<Rental>, threshold: int, scope: string)
    requires |rs| == |other|
    requires forall i :: 0 <= i < |rs| ==> rs[i].delayAtCheckout == other[i].delayAtCheckout
    requires scope == Connect ==>
      forall i :: 0 <= i < |rs| ==> (rs[i].checkinType == Connect <==> other[i].checkinType == Connect)
    ensures ResolvedRentals(rs, threshold, scope) == ResolvedRentals(other, threshold, scope)
  {
    forall i | 0 <= i < |rs|
      ensures CountedIn(scope)(rs[i]) == CountedIn(scope)(other[i])
      ensures SolvedIn(scope, threshold)(rs[i]) == SolvedIn(scope, threshold)(other[i])
    {
      assert rs[i].delayAtCheckout == other[i].delayAtCheckout;
    }
    CountPointwise(rs, other, CountedIn(scope), CountedIn(scope));
    CountPointwise(rs, other, SolvedIn(scope, threshold), SolvedIn(scope, threshold));
    ResolvedByCounts(rs, threshold, scope);
    ResolvedByCounts(other, threshold, scope);
  }

  /**
   * For the same threshold, the late and the solved rentals of scope "connect"
   * are among those of scope "all".
   */
  lemma ConnectWithinAll(rs: seq<Rental>, threshold: int)
    ensures multiset(LateRentals(rs, Connect)) <= multiset(LateRentals(rs, "all"))
    ensures |LateRentals(rs, Connect)| <= |LateRentals(rs, "all")|
    ensures |SolvedRentals(LateRentals(rs, Connect), threshold)| <= |SolvedRentals(LateRentals(rs, "all"), threshold)|
  {
    LateRentalsContents(rs, Connect);
    LateRentalsContents(rs, "all");
    LateCount(rs, Connect);
    LateCount(rs, "all");
    CountMonotone(rs, CountedIn(Connect), CountedIn("all"));
    SolvedCount(rs, threshold, Connect);
    SolvedCount(rs, threshold, "all");
    CountMonotone(rs, SolvedIn(Connect, threshold), SolvedIn("all", threshold));
  }

  /**
   * A rental that is not late in the scope (no positive delay, a missing
   * delay, or not Connect under scope "connect") is in neither the numerator
   * nor the denominator: removing it changes nothing.
   */
  lemma UncountedRentalIgnored(xs: seq<Rental>, x: Rental, ys: seq<Rental>, threshold: int, scope: string)
    requires !Counted(x, scope)
    ensures LateRentals(xs + [x] + ys, scope) == LateRentals(xs + ys, scope)
    ensures ResolvedRentals(xs + [x] + ys, threshold, scope) == ResolvedRentals(xs + ys, threshold, scope)
  {
    if scope == Connect {
      FilterSkip(xs, x, ys, IsConnectLate);
    } else {
      FilterSkip(xs, x, ys, IsLate);
    }
  }

  // ---------------------------------------------------------------------------
  // The slider that feeds the simulator
  // ---------------------------------------------------------------------------

  const SliderMin: int := 0
  const SliderMax: int := 720
  const SliderStep: int := 30

  /** The thresholds the slider offers: 0 to 720 minutes in steps of 30. */
  predicate OnSlider(threshold: int)
  {
    SliderMin <= threshold <= SliderMax && (threshold - SliderMin) % SliderStep == 0
  }

  /** At the slider's lowest position nothing is solved. */
  lemma SliderStartSolvesNone(rs: seq<Rental>, scope: string)
    ensures OnSlider(SliderMin)
    ensures ResolvedRentals(rs, SliderMin, scope).Ok? ==> ResolvedRentals(rs, SliderMin, scope).value == 0.0
  {
    NonPositiveThresholdSolvesNone(rs, SliderMin, scope);
  }

  /** At the slider's highest position everything is solved when no late delay exceeds 720 minutes. */
  lemma SliderEndSolvesAll(rs: seq<Rental>, scope: string)
    requires forall r :: r in rs && Counted(r, scope) ==> r.delayAtCheckout.value <= SliderMax
    ensures OnSlider(SliderMax)
    ensures ResolvedRentals(rs, SliderMax, scope).Ok? ==> ResolvedRentals(rs, SliderMax, scope).value == 100.0
  {
    CoveringThresholdSolvesAll(rs, SliderMax, scope);
  }

  // ---------------------------------------------------------------------------
  // Late rentals per delay range
  // ---------------------------------------------------------------------------

  const OnTime: string := "On time"
  const Unknown: string := "Unknown"

  /** The bar chart's categories, in the order the chart shows them. */
  const DelayCategories: seq<string> := [
    "Up to 30min late", "30min to 1h late", "1h to 1h30 late",
    "1h30 to 2h late", "2h to 2h30 late", "2h30 to 3h late", "Above 3h late"
  ]

  /** Neither "On time" nor "Unknown"; a missing delay range passes both tests. */
  predicate IsDelayedRange(r: Rental)
  {
    r.delayRange != Some(OnTime) && r.delayRange != Some(Unknown)
  }

  /** The rows kept by the exclusion mask (DASHBOARD/getaround.py:181). */
  function DelayedRentals(rs: seq<Rental>): seq<Rental>
  {
    Filter(rs, IsDelayedRange)
  }

  function HasRange(name: string): Rental -> bool
  {
    (r: Rental) => r.delayRange == Some(name)
  }

  /** A delay range that is one of `names`. */
  function RangeIn(names: seq<string>): Rental -> bool
  {
    (r: Rental) => r.delayRange.Some? && r.delayRange.value in names
  }

  /** The number of rows carrying each name, in the order of `names`. */
  function ValueCounts(rows: seq<Rental>, names: seq<string>): seq<nat>
  {
    seq(|names|, i requires 0 <= i < |names| => Count(rows, HasRange(names[i])))
  }

  /** A name that no row carries, and that a count by name therefore lacks. */
  function AbsentFrom(rows: seq<Rental>): string -> bool
  {
    name => Count(rows, HasRange(name)) == 0
  }

  /**
   * The delayed rows counted per category, in category order
   * (DASHBOARD/getaround.py:181-186); a category no delayed row carries is
   * missing from `value_counts()`, and `.loc` selecting it fails.
   */
  function CategoryCounts(rs: seq<Rental>, categories: seq<string>): Result<seq<nat>>
  {
    var delayed := DelayedRentals(rs);
    var missing := Filter(categories, AbsentFrom(delayed));
    if missing != [] then Err(MissingLabels(missing))
    else Ok(ValueCounts(delayed, categories))
  }

  /** The bar chart's counts, `value_counts().loc[cat_order]` (DASHBOARD/getaround.py:183-186). */
  function DelayRangeCounts(rs: seq<Rental>): Result<seq<nat>>
  {
    CategoryCounts(rs, DelayCategories)
  }

  function Sum(xs: seq<nat>): nat
  {
    if xs == [] then 0 else xs[0] + Sum(xs[1..])
  }

  predicate Distinct(names: seq<string>)
  {
    forall i, j :: 0 <= i < j < |names| ==> names[i] != names[j]
  }

  /** A list of labels the dashboard can ask for: distinct, and none of them excluded. */
  predicate ValidCategories(categories: seq<string>)
  {
    Distinct(categories) && OnTime !in categories && Unknown !in categories
  }

  lemma DelayCategoriesValid()
    ensures ValidCategories(DelayCategories)
  {
  }

  /**
   * Excluding "On time" and "Unknown" rows does not change the count of any
   * other label.
   */
  lemma ExclusionKeepsCount(rs: seq<Rental>, name: string)
    requires name != OnTime && name != Unknown
    ensures Count(DelayedRentals(rs), HasRange(name)) == Count(rs, HasRange(name))
  {
    CountAfterFilter(rs, IsDelayedRange, HasRange(name));
  }

  /**
   * Counting per category succeeds exactly when every category occurs in the
   * table, and then gives one positive count per category, in order, equal to
   * the number of rows of the whole table carrying it; otherwise it fails
   * naming exactly the absent categories.
   */
  lemma CategoryCountsSpec(rs: seq<Rental>, categories: seq<string>)
    requires OnTime !in categories && Unknown !in categories
    ensures CategoryCounts(rs, categories).Ok? <==>
      forall i :: 0 <= i < |categories| ==> exists r :: r in rs && r.delayRange == Some(categories[i])
    ensures CategoryCounts(rs, categories).Ok? ==>
      |CategoryCounts(rs, categories).value| == |categories| &&
      forall i :: 0 <= i < |categories| ==>
        0 < CategoryCounts(rs, categories).value[i] == Count(rs, HasRange(categories[i]))
    ensures CategoryCounts(rs, categories).Err? ==>
      CategoryCounts(rs, categories).error.MissingLabels? &&
      CategoryCounts(rs, categories).error.labels != [] &&
      forall name :: name in CategoryCounts(rs, categories).error.labels <==>
        name in categories && forall r :: r in rs ==> r.delayRange != Some(name)
  {
    var delayed := DelayedRentals(rs);
    forall name | name in categories
      ensures AbsentFrom(delayed)(name) <==> forall r :: r in rs ==> r.delayRange != Some(name)
    {
      ExclusionKeepsCount(rs, name);
      CountZero(rs, HasRange(name));
    }
    var missing := Filter(categories, AbsentFrom(delayed));
    FilterContents(categories, AbsentFrom(delayed));
    assert missing != [] ==> missing[0] in missing;
    forall i | 0 <= i < |categories|
      ensures ValueCounts(delayed, categories)[i] == Count(rs, HasRange(categories[i]))
    {
      assert categories[i] in categories;
      ExclusionKeepsCount(rs, categories[i]);
    }
  }

  /** `CategoryCountsSpec` for the bar chart's own categories. */
  lemma DelayRangeCountsSpec(rs: seq<Rental>)
    ensures DelayRangeCounts(rs).Ok? <==>
      forall i :: 0 <= i < |DelayCategories| ==> exists r :: r in rs && r.delayRange == Some(DelayCategories[i])
    ensures DelayRangeCounts(rs).Ok? ==>
      |DelayRangeCounts(rs).value| == |DelayCategories| &&
      forall i :: 0 <= i < |DelayCategories| ==>
        0 < DelayRangeCounts(rs).value[i] == Count(rs, HasRange(DelayCategories[i]))
    ensures DelayRangeCounts(rs).Err? ==>
      DelayRangeCounts(rs).error.MissingLabels? &&
      DelayRangeCounts(rs).error.labels != [] &&
      forall name :: name in DelayRangeCounts(rs).error.labels <==>
        name in DelayCategories && forall r :: r in rs ==> r.delayRange != Some(name)
  {
    DelayCategoriesValid();
    CategoryCountsSpec(rs, DelayCategories);
  }

  lemma {:induction false} SumValueCounts(rows: seq<Rental>, names: seq<string>)
    requires Distinct(names)
    ensures Sum(ValueCounts(rows, names)) == Count(rows, RangeIn(names))
  {
    if names == [] {
      CountZero(rows, RangeIn(names));
    } else {
      var rest := names[1..];
      assert ValueCounts(rows, names)[1..] == ValueCounts(rows, rest);
      SumValueCounts(rows, rest);
      assert names[0] !in rest by {
        forall k | 0 <= k < |rest| ensures rest[k] != names[0] {
          assert rest[k] == names[k + 1];
        }
      }
      assert forall l :: l in names <==> l == names[0] || l in rest;
      CountDisjointUnion(rows, HasRange(names[0]), RangeIn(rest), RangeIn(names));
    }
  }

  /**
   * The bars add up to the number of rows carrying one of the categories,
   * which is at most the number of delayed rows.
   */
  lemma CategoryBarsTotal(rs: seq<Rental>, categories: seq<string>)
    requires ValidCategories(categories)
    ensures CategoryCounts(rs, categories).Ok? ==>
      Sum(CategoryCounts(rs, categories).value) == Count(rs, RangeIn(categories)) <= |DelayedRentals(rs)|
  {
    var delayed := DelayedRentals(rs);
    SumValueCounts(delayed, categories);
    CountAfterFilter(rs, IsDelayedRange, RangeIn(categories));
    CountBound(delayed, RangeIn(categories));
  }

  /** `CategoryBarsTotal` for the bar chart's own categories. */
  lemma DelayBarsTotal(rs: seq<Rental>)
    ensures DelayRangeCounts(rs).Ok? ==>
      Sum(DelayRangeCounts(rs).value) == Count(rs, RangeIn(DelayCategories)) <= |DelayedRentals(rs)|
  {
    DelayCategoriesValid();
    CategoryBarsTotal(rs, DelayCategories);
  }
}

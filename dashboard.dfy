/**
 * The dashboard's "Apply Filters" block: starting from the loaded table,
 * each widget narrows the rows by a row mask, and the percentile cut runs
 * last on whatever the other filters left. The result is stored in the
 * session and kept until the button is pressed again.
 *
 * A table is a sequence of rows; a missing cell (pandas' NaN) is `None`.
 * NaN equals nothing, itself included, and every comparison with it is
 * false.
 */
module Dashboard {
  import opened Wrappers
  import Preprocess

  /** One row of the processed table, as far as the filters read it. */
  datatype Listing = Listing(
    area: Option<string>,
    rooms: Option<int>,
    energyMark: Option<string>,
    availableFrom: Option<string>,
    monthlyRent: int,
    monthlyAconto: int,
    sizeSqm: int)

  /** A select box: `'All'`, or one of the column's values (which may be NaN). */
  datatype Choice<T> = All | Only(value: Option<T>)

  /** The widget values when the button is pressed. */
  datatype Selection = Selection(
    area: Choice<string>,
    rooms: Choice<int>,
    includeUnknownDate: bool,
    availableFrom: int,
    priceLow: int, priceHigh: int,
    sizeLow: int, sizeHigh: int,
    energyMark: Choice<string>,
    percentile: int)

  /** The `total_rental_price` column: the same sum as the cleaning script's `total_monthly_rent`. */
  function TotalRentalPrice(l: Listing): int {
    Preprocess.TotalMonthlyRent(l.monthlyRent, l.monthlyAconto)
  }

  // ---------------------------------------------------------------------
  // Row masks
  // ---------------------------------------------------------------------

  /** `rows[mask]`: the rows the mask keeps, in their order. */
  function Keep(rows: seq<Listing>, mask: Listing -> bool): (kept: seq<Listing>)
    ensures |kept| <= |rows|
    decreases |rows|
  {
    if rows == [] then []
    else (if mask(rows[0]) then [rows[0]] else []) + Keep(rows[1..], mask)
  }

  /** A row is kept exactly when it is in the table and the mask holds on it. */
  lemma {:induction false} KeepMembers(rows: seq<Listing>, mask: Listing -> bool)
    ensures forall x :: x in Keep(rows, mask) <==> x in rows && mask(x)
    decreases |rows|
  {
    if rows != [] {
      KeepMembers(rows[1..], mask);
      assert rows == [rows[0]] + rows[1..];
    }
  }

  /** A row the mask keeps is kept as often as it occurs; any other is dropped. */
  lemma {:induction false} KeepCount(rows: seq<Listing>, mask: Listing -> bool)
    ensures forall x :: multiset(Keep(rows, mask))[x] == if mask(x) then multiset(rows)[x] else 0
    decreases |rows|
  {
    if rows != [] {
      KeepCount(rows[1..], mask);
      assert rows == [rows[0]] + rows[1..];
      assert multiset(rows) == multiset([rows[0]]) + multiset(rows[1..]);
    }
  }

  /** `xs` is `ys` with some elements left out and the rest in their order. */
  predicate SubsequenceOf(xs: seq<Listing>, ys: seq<Listing>)
    decreases |ys|
  {
    if ys == [] then xs == []
    else (xs != [] && xs[0] == ys[0] && SubsequenceOf(xs[1..], ys[1..])) || SubsequenceOf(xs, ys[1..])
  }

  /** A mask keeps the rows in their order. */
  lemma {:induction false} KeepIsSubsequence(rows: seq<Listing>, mask: Listing -> bool)
    ensures SubsequenceOf(Keep(rows, mask), rows)
    decreases |rows|
  {
    if rows != [] {
      KeepIsSubsequence(rows[1..], mask);
      var rest := Keep(rows[1..], mask);
      if mask(rows[0]) {
        assert Keep(rows, mask) == [rows[0]] + rest;
        assert ([rows[0]] + rest)[1..] == rest;
      } else {
        assert Keep(rows, mask) == rest;
      }
    }
  }

  /** Two masks in a row are one mask that asks both. */
  lemma {:induction false} KeepTwice(rows: seq<Listing>, first: Listing -> bool, second: Listing -> bool, both: Listing -> bool)
    requires forall x :: both(x) == (first(x) && second(x))
    ensures Keep(Keep(rows, first), second) == Keep(rows, both)
    decreases |rows|
  {
    if rows != [] {
      var r := rows[0];
      KeepTwice(rows[1..], first, second, both);
      var rest := Keep(rows[1..], first);
      if first(r) {
        KeepCons(r, rest, second);
        assert Keep(rows, first) == [r] + rest;
      } else {
        assert Keep(rows, first) == rest;
      }
    }
  }

  lemma {:induction false} KeepCons(r: Listing, rest: seq<Listing>, mask: Listing -> bool)
    ensures Keep([r] + rest, mask) == (if mask(r) then [r] else []) + Keep(rest, mask)
  {
    assert ([r] + rest)[0] == r && ([r] + rest)[1..] == rest;
  }

  /** A mask that holds on every row keeps them all. */
  lemma {:induction false} KeepEverything(rows: seq<Listing>, mask: Listing -> bool)
    requires forall x :: x in rows ==> mask(x)
    ensures Keep(rows, mask) == rows
    decreases |rows|
  {
    if rows != [] {
      assert forall x :: x in rows[1..] ==> x in rows;
      KeepEverything(rows[1..], mask);
    }
  }

  /** Masks that agree on the rows keep the same rows. */
  lemma {:induction false} KeepSameRows(rows: seq<Listing>, m1: Listing -> bool, m2: Listing -> bool)
    requires forall x :: x in rows ==> m1(x) == m2(x)
    ensures Keep(rows, m1) == Keep(rows, m2)
    decreases |rows|
  {
    if rows != [] {
      assert forall x :: x in rows[1..] ==> x in rows;
      KeepSameRows(rows[1..], m1, m2);
    }
  }

  /** A mask that holds on no row keeps nothing. */
  lemma {:induction false} KeepNone(rows: seq<Listing>, mask: Listing -> bool)
    requires forall x :: !mask(x)
    ensures Keep(rows, mask) == []
    decreases |rows|
  {
    if rows != [] {
      KeepNone(rows[1..], mask);
    }
  }

  /** A weaker mask keeps a supersequence. */
  lemma {:induction false} KeepWeaker(rows: seq<Listing>, strict: Listing -> bool, loose: Listing -> bool)
    requires forall x :: strict(x) ==> loose(x)
    ensures SubsequenceOf(Keep(rows, strict), Keep(rows, loose))
  {
    KeepTwice(rows, loose, strict, strict);
    KeepIsSubsequence(Keep(rows, loose), strict);
  }

  // ---------------------------------------------------------------------
  // The filters
  // ---------------------------------------------------------------------

  /** `column == value`: never true when either side is NaN. */
  predicate SameValue<T(==)>(cell: Option<T>, chosen: Option<T>) {
    cell.Some? && cell == chosen
  }

  /** An equality filter, skipped when the choice is `'All'`. */
  predicate ChoicePasses<T(==)>(cell: Option<T>, choice: Choice<T>) {
    choice.All? || SameValue(cell, choice.value)
  }

  /** `pd.to_datetime(available_from, errors='coerce') >= selected`: false for a missing or unparseable cell. */
  predicate OnOrAfter(l: Listing, day: int, toDate: string -> Option<int>) {
    l.availableFrom.Some? && toDate(l.availableFrom.value).Some? && toDate(l.availableFrom.value).value >= day
  }

  /** The available-from rule: rows without a date pass only when the checkbox is ticked. */
  predicate DatePasses(l: Listing, s: Selection, toDate: string -> Option<int>) {
    if s.includeUnknownDate then OnOrAfter(l, s.availableFrom, toDate) || l.availableFrom.None?
    else OnOrAfter(l, s.availableFrom, toDate)
  }

  predicate PricePasses(l: Listing, s: Selection) {
    s.priceLow <= TotalRentalPrice(l) <= s.priceHigh
  }

  predicate SizePasses(l: Listing, s: Selection) {
    s.sizeLow <= l.sizeSqm <= s.sizeHigh
  }

  /** Every filter before the percentile cut. */
  predicate Passes(l: Listing, s: Selection, toDate: string -> Option<int>) {
    && ChoicePasses(l.area, s.area)
    && ChoicePasses(l.rooms, s.rooms)
    && DatePasses(l, s, toDate)
    && PricePasses(l, s)
    && SizePasses(l, s)
    && ChoicePasses(l.energyMark, s.energyMark)
  }

  /** The rows left for the percentile cut. */
  function Prefiltered(df: seq<Listing>, s: Selection, toDate: string -> Option<int>): seq<Listing> {
    Keep(df, (l: Listing) => Passes(l, s, toDate))
  }

  /**
   * The rows the button stores. `quantile(rows, p)` is the total rental
   * price at percentile `p` of `rows`; it is computed on the prefiltered
   * rows, and the cut applies only below 100.
   */
  function Filtered(df: seq<Listing>, s: Selection, toDate: string -> Option<int>,
                    quantile: (seq<Listing>, int) -> real): seq<Listing> {
    var rows := Prefiltered(df, s, toDate);
    if s.percentile < 100 then
      var threshold := quantile(rows, s.percentile);
      Keep(rows, CutAt(threshold))
    else rows
  }

  // ---------------------------------------------------------------------
  // The button
  // ---------------------------------------------------------------------

  /** The `k`-th filter of the chain, counting from 0. */
  predicate Stage(l: Listing, s: Selection, toDate: string -> Option<int>, k: nat) {
    if k == 0 then ChoicePasses(l.area, s.area)
    else if k == 1 then ChoicePasses(l.rooms, s.rooms)
    else if k == 2 then DatePasses(l, s, toDate)
    else if k == 3 then PricePasses(l, s)
    else if k == 4 then SizePasses(l, s)
    else ChoicePasses(l.energyMark, s.energyMark)
  }

  /** The first `n` filters of the chain. */
  predicate PassesFirst(l: Listing, s: Selection, toDate: string -> Option<int>, n: nat) {
    n == 0 || (PassesFirst(l, s, toDate, n - 1) && Stage(l, s, toDate, n - 1))
  }

  /** The rows left after the first `n` filters. */
  function After(df: seq<Listing>, s: Selection, toDate: string -> Option<int>, n: nat): seq<Listing> {
    Keep(df, (l: Listing) => PassesFirst(l, s, toDate, n))
  }

  /** A mask that is filter `n` takes the rows left after `n` filters to those left after `n + 1`. */
  lemma {:induction false} NarrowBy(df: seq<Listing>, s: Selection, toDate: string -> Option<int>, n: nat,
                                     rows: seq<Listing>, mask: Listing -> bool)
    requires rows == After(df, s, toDate, n)
    requires forall l :: mask(l) == Stage(l, s, toDate, n)
    ensures Keep(rows, mask) == After(df, s, toDate, n + 1)
  {
    KeepTwice(df, (l: Listing) => PassesFirst(l, s, toDate, n), mask, (l: Listing) => PassesFirst(l, s, toDate, n + 1));
  }

  /** A filter set to `'All'` leaves the rows as they are. */
  lemma {:induction false} SkipAll(df: seq<Listing>, s: Selection, toDate: string -> Option<int>, n: nat, rows: seq<Listing>)
    requires rows == After(df, s, toDate, n)
    requires forall l :: Stage(l, s, toDate, n)
    ensures rows == After(df, s, toDate, n + 1)
  {
    KeepSameRows(df, (l: Listing) => PassesFirst(l, s, toDate, n), (l: Listing) => PassesFirst(l, s, toDate, n + 1));
  }

  lemma {:induction false} AllStagesPass(df: seq<Listing>, s: Selection, toDate: string -> Option<int>)
    ensures After(df, s, toDate, 6) == Prefiltered(df, s, toDate)
  {
    forall l: Listing
      ensures PassesFirst(l, s, toDate, 6) == Passes(l, s, toDate)
    {
      SixStages(l, s, toDate);
    }
    KeepSameRows(df, (l: Listing) => PassesFirst(l, s, toDate, 6), (l: Listing) => Passes(l, s, toDate));
  }

  /** The six filters of the chain are the filters a row must pass. */
  lemma {:induction false} SixStages(l: Listing, s: Selection, toDate: string -> Option<int>)
    ensures PassesFirst(l, s, toDate, 6) == Passes(l, s, toDate)
  {
    assert PassesFirst(l, s, toDate, 1) == ChoicePasses(l.area, s.area);
    assert PassesFirst(l, s, toDate, 2) == (PassesFirst(l, s, toDate, 1) && ChoicePasses(l.rooms, s.rooms));
    assert PassesFirst(l, s, toDate, 3) == (PassesFirst(l, s, toDate, 2) && DatePasses(l, s, toDate));
    assert PassesFirst(l, s, toDate, 4) == (PassesFirst(l, s, toDate, 3) && PricePasses(l, s));
    assert PassesFirst(l, s, toDate, 5) == (PassesFirst(l, s, toDate, 4) && SizePasses(l, s));
    assert PassesFirst(l, s, toDate, 6) == (PassesFirst(l, s, toDate, 5) && ChoicePasses(l.energyMark, s.energyMark));
  }

  lemma {:induction false} NoStagePassed(df: seq<Listing>, s: Selection, toDate: string -> Option<int>)
    ensures After(df, s, toDate, 0) == df
  {
    KeepEverything(df, (l: Listing) => PassesFirst(l, s, toDate, 0));
  }

  /** `df['area'] == selected_area`, and likewise for rooms and the energy mark. */
  function AreaMask(s: Selection): Listing -> bool
    requires s.area.Only?
  {
    (l: Listing) => SameValue(l.area, s.area.value)
  }

  function RoomsMask(s: Selection): Listing -> bool
    requires s.rooms.Only?
  {
    (l: Listing) => SameValue(l.rooms, s.rooms.value)
  }

  function EnergyMask(s: Selection): Listing -> bool
    requires s.energyMark.Only?
  {
    (l: Listing) => SameValue(l.energyMark, s.energyMark.value)
  }

  /** The date mask with the checkbox ticked, or not. */
  function DateMask(s: Selection, toDate: string -> Option<int>): Listing -> bool {
    if s.includeUnknownDate then (l: Listing) => OnOrAfter(l, s.availableFrom, toDate) || l.availableFrom.None?
    else (l: Listing) => OnOrAfter(l, s.availableFrom, toDate)
  }

  function PriceMask(s: Selection): Listing -> bool {
    (l: Listing) => s.priceLow <= TotalRentalPrice(l) <= s.priceHigh
  }

  function SizeMask(s: Selection): Listing -> bool {
    (l: Listing) => s.sizeLow <= l.sizeSqm <= s.sizeHigh
  }

  /** `df['total_rental_price'] <= threshold`. */
  function CutAt(threshold: real): Listing -> bool {
    (l: Listing) => TotalRentalPrice(l) as real <= threshold
  }

  lemma {:induction false} AreaStep(df: seq<Listing>, s: Selection, toDate: string -> Option<int>, rows: seq<Listing>)
    requires s.area.Only? && rows == After(df, s, toDate, 0)
    ensures Keep(rows, AreaMask(s)) == After(df, s, toDate, 1)
  {
    NarrowBy(df, s, toDate, 0, rows, AreaMask(s));
  }

  lemma {:induction false} RoomsStep(df: seq<Listing>, s: Selection, toDate: string -> Option<int>, rows: seq<Listing>)
    requires s.rooms.Only? && rows == After(df, s, toDate, 1)
    ensures Keep(rows, RoomsMask(s)) == After(df, s, toDate, 2)
  {
    NarrowBy(df, s, toDate, 1, rows, RoomsMask(s));
  }

  lemma {:induction false} DateStep(df: seq<Listing>, s: Selection, toDate: string -> Option<int>, rows: seq<Listing>)
    requires rows == After(df, s, toDate, 2)
    ensures Keep(rows, DateMask(s, toDate)) == After(df, s, toDate, 3)
  {
    NarrowBy(df, s, toDate, 2, rows, DateMask(s, toDate));
  }

  lemma {:induction false} PriceStep(df: seq<Listing>, s: Selection, toDate: string -> Option<int>, rows: seq<Listing>)
    requires rows == After(df, s, toDate, 3)
    ensures Keep(rows, PriceMask(s)) == After(df, s, toDate, 4)
  {
    NarrowBy(df, s, toDate, 3, rows, PriceMask(s));
  }

  lemma {:induction false} SizeStep(df: seq<Listing>, s: Selection, toDate: string -> Option<int>, rows: seq<Listing>)
    requires rows == After(df, s, toDate, 4)
    ensures Keep(rows, SizeMask(s)) == After(df, s, toDate, 5)
  {
    NarrowBy(df, s, toDate, 4, rows, SizeMask(s));
  }

  lemma {:induction false} EnergyStep(df: seq<Listing>, s: Selection, toDate: string -> Option<int>, rows: seq<Listing>)
    requires s.energyMark.Only? && rows == After(df, s, toDate, 5)
    ensures Keep(rows, EnergyMask(s)) == After(df, s, toDate, 6)
  {
    NarrowBy(df, s, toDate, 5, rows, EnergyMask(s));
  }

  /** The percentile cut on the prefiltered rows is the stored result. */
  lemma {:induction false} CutStep(df: seq<Listing>, s: Selection, toDate: string -> Option<int>,
                                   quantile: (seq<Listing>, int) -> real, rows: seq<Listing>)
    requires rows == After(df, s, toDate, 6)
    ensures s.percentile < 100 ==> Keep(rows, CutAt(quantile(rows, s.percentile))) == Filtered(df, s, toDate, quantile)
    ensures s.percentile >= 100 ==> rows == Filtered(df, s, toDate, quantile)
  {
    AllStagesPass(df, s, toDate);
  }

  /** The "Apply Filters" block: `filtered_df` reassigned mask by mask, the percentile cut last. */
  method ApplyFilters(df: seq<Listing>, s: Selection, toDate: string -> Option<int>,
                      quantile: (seq<Listing>, int) -> real) returns (filtered: seq<Listing>)
    ensures filtered == Filtered(df, s, toDate, quantile)
  {
    filtered := df;
    NoStagePassed(df, s, toDate);
    if s.area.Only? {
      AreaStep(df, s, toDate, filtered);
      filtered := Keep(filtered, AreaMask(s));
    } else {
      SkipAll(df, s, toDate, 0, filtered);
    }
    if s.rooms.Only? {
      RoomsStep(df, s, toDate, filtered);
      filtered := Keep(filtered, RoomsMask(s));
    } else {
      SkipAll(df, s, toDate, 1, filtered);
    }
    DateStep(df, s, toDate, filtered);
    filtered := Keep(filtered, DateMask(s, toDate));
    PriceStep(df, s, toDate, filtered);
    filtered := Keep(filtered, PriceMask(s));
    SizeStep(df, s, toDate, filtered);
    filtered := Keep(filtered, SizeMask(s));
    if s.energyMark.Only? {
      EnergyStep(df, s, toDate, filtered);
      filtered := Keep(filtered, EnergyMask(s));
    } else {
      SkipAll(df, s, toDate, 5, filtered);
    }
    CutStep(df, s, toDate, quantile, filtered);
    if s.percentile < 100 {
      var threshold := quantile(filtered, s.percentile);
      filtered := Keep(filtered, CutAt(threshold));
    }
  }

  // ---------------------------------------------------------------------
  // What the filters promise
  // ---------------------------------------------------------------------

  /** The stored rows are loaded rows, in their loaded order. */
  lemma {:induction false} FilteredIsSubsequence(df: seq<Listing>, s: Selection, toDate: string -> Option<int>,
                                                  quantile: (seq<Listing>, int) -> real)
    ensures SubsequenceOf(Filtered(df, s, toDate, quantile), df)
  {
    var rows := Prefiltered(df, s, toDate);
    KeepIsSubsequence(df, (l: Listing) => Passes(l, s, toDate));
    if s.percentile < 100 {
      var threshold := quantile(rows, s.percentile);
      var cut := (l: Listing) => Passes(l, s, toDate) && TotalRentalPrice(l) as real <= threshold;
      KeepTwice(df, (l: Listing) => Passes(l, s, toDate), CutAt(threshold), cut);
      KeepIsSubsequence(df, cut);
    }
  }

  /**
   * A row is stored exactly when it was loaded, passes every filter, and
   * (below 100) is at or under the price at the selected percentile of the
   * rows the other filters left.
   */
  lemma {:induction false} FilteredMembers(df: seq<Listing>, s: Selection, toDate: string -> Option<int>,
                                           quantile: (seq<Listing>, int) -> real, l: Listing)
    ensures l in Filtered(df, s, toDate, quantile) <==>
      && l in df
      && Passes(l, s, toDate)
      && (s.percentile < 100 ==> TotalRentalPrice(l) as real <= quantile(Prefiltered(df, s, toDate), s.percentile))
  {
    var rows := Prefiltered(df, s, toDate);
    KeepMembers(df, (l: Listing) => Passes(l, s, toDate));
    if s.percentile < 100 {
      KeepMembers(rows, CutAt(quantile(rows, s.percentile)));
    }
  }

  /**
   * Each stored row appears as often as it was loaded: two listings with
   * the same cells are kept or dropped together, and none is merged away.
   */
  lemma {:induction false} FilteredCount(df: seq<Listing>, s: Selection, toDate: string -> Option<int>,
                                         quantile: (seq<Listing>, int) -> real, l: Listing)
    ensures multiset(Filtered(df, s, toDate, quantile))[l] ==
      if Passes(l, s, toDate) && (s.percentile < 100 ==> TotalRentalPrice(l) as real <= quantile(Prefiltered(df, s, toDate), s.percentile))
      then multiset(df)[l] else 0
  {
    var rows := Prefiltered(df, s, toDate);
    KeepCount(df, (l: Listing) => Passes(l, s, toDate));
    if s.percentile < 100 {
      KeepCount(rows, CutAt(quantile(rows, s.percentile)));
    }
  }

  /** An area, rooms or energy choice of NaN matches no row. */
  lemma {:induction false} NaNChoiceMatchesNothing(df: seq<Listing>, s: Selection, toDate: string -> Option<int>,
                                                    quantile: (seq<Listing>, int) -> real)
    requires s.area == Only(None) || s.rooms == Only(None) || s.energyMark == Only(None)
    ensures Filtered(df, s, toDate, quantile) == []
  {
    KeepNone(df, (l: Listing) => Passes(l, s, toDate));
  }

  /**
   * Ticking "include unknown" only adds rows, and only rows without an
   * available-from date.
   */
  lemma {:induction false} IncludeUnknownAddsMissingDates(df: seq<Listing>, s: Selection, toDate: string -> Option<int>)
    requires !s.includeUnknownDate
    ensures SubsequenceOf(Prefiltered(df, s, toDate), Prefiltered(df, s.(includeUnknownDate := true), toDate))
    ensures forall l :: (l in Prefiltered(df, s.(includeUnknownDate := true), toDate) && l !in Prefiltered(df, s, toDate))
                        ==> l.availableFrom.None?
  {
    var wide := s.(includeUnknownDate := true);
    KeepWeaker(df, (l: Listing) => Passes(l, s, toDate), (l: Listing) => Passes(l, wide, toDate));
    KeepMembers(df, (l: Listing) => Passes(l, s, toDate));
    KeepMembers(df, (l: Listing) => Passes(l, wide, toDate));
  }

  /**
   * With `'All'` in every select box, the widest ranges, the checkbox ticked
   * and the slider at 100, every row whose date is missing or on or after
   * the selected one is stored.
   */
  lemma {:induction false} WidestSelectionKeepsAll(df: seq<Listing>, s: Selection, toDate: string -> Option<int>,
                                                   quantile: (seq<Listing>, int) -> real)
    requires s.area.All? && s.rooms.All? && s.energyMark.All? && s.includeUnknownDate && s.percentile >= 100
    requires forall l :: l in df ==> s.priceLow <= TotalRentalPrice(l) <= s.priceHigh && s.sizeLow <= l.sizeSqm <= s.sizeHigh
    requires forall l :: l in df ==> l.availableFrom.None? || OnOrAfter(l, s.availableFrom, toDate)
    ensures Filtered(df, s, toDate, quantile) == df
  {
    KeepEverything(df, (l: Listing) => Passes(l, s, toDate));
  }

  /** A row with a date that does not parse is dropped whatever the checkbox says. */
  lemma {:induction false} UnparseableDateDropped(df: seq<Listing>, s: Selection, toDate: string -> Option<int>,
                                                  quantile: (seq<Listing>, int) -> real, l: Listing)
    requires l.availableFrom.Some? && toDate(l.availableFrom.value).None?
    ensures l !in Filtered(df, s, toDate, quantile)
  {
    FilteredMembers(df, s, toDate, quantile, l);
  }

  // ---------------------------------------------------------------------
  // The session
  // ---------------------------------------------------------------------

  /** The session state kept across reruns of the page. */
  class Session {
    var originalDf: seq<Listing>
    var filteredDf: seq<Listing>

    /** The first run: both tables are the loaded one. */
    constructor (df: seq<Listing>)
      ensures originalDf == df && filteredDf == df
    {
      originalDf := df;
      filteredDf := df;
    }

    /**
     * A later run: the table is loaded again; the stored result is
     * replaced by the loaded table filtered only when the button was
     * pressed, and the original copy is never touched.
     */
    method Rerun(df: seq<Listing>, pressed: bool, s: Selection, toDate: string -> Option<int>,
                 quantile: (seq<Listing>, int) -> real)
      modifies this
      ensures originalDf == old(originalDf)
      ensures pressed ==> filteredDf == Filtered(df, s, toDate, quantile)
      ensures !pressed ==> filteredDf == old(filteredDf)
    {
      if pressed {
        filteredDf := ApplyFilters(df, s, toDate, quantile);
      }
    }
  }
}

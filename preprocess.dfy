/**
 * The cleaning script's cell rules: the text-to-number conversions of the
 * price, size and floor columns, the energy mark and the area taken from
 * longer texts, the Danish date rewrite, the missing-value defaults, the
 * rent sum and the day-count buckets. Dates are day numbers; a missing cell
 * (pandas' NaN or NaT) is `None`.
 */
module Preprocess {
  import opened Wrappers
  import opened Text

  // ---------------------------------------------------------------------
  // Prices: monthly_rent, monthly_aconto, deposit, prepaid_rent
  // ---------------------------------------------------------------------

  /** Removes `kr`, then every `.`, then every `,`, then the surrounding whitespace. */
  function CleanCurrency(s: string): (r: string)
    ensures '.' !in r && ',' !in r
  {
    var noKr := Replace(s, "kr", "");
    var noDots := Replace(noKr, ".", "");
    ReplaceCharRemovesIt(noKr, '.', "");
    var noCommas := Replace(noDots, ",", "");
    ReplaceCharRemovesIt(noDots, ',', "");
    ReplaceKeepsChars(noDots, ",", "");
    StripKeepsAbsent(noCommas, '.');
    StripKeepsAbsent(noCommas, ',');
    Strip(noCommas)
  }

  /** What `pd.to_numeric` makes of one cell. */
  datatype Numeric = Number(n: int) | NaN | Unparseable

  /**
   * `pd.to_numeric` on one cell: a missing or empty cell is NaN, an integer
   * text is its number, and any other text makes the conversion raise.
   */
  function ToNumeric(cell: Option<string>): (r: Numeric)
    ensures r.NaN? <==> cell.None? || cell.value == []
    ensures r.Number? <==> cell.Some? && ParseInt(cell.value).Some?
    ensures r.Number? ==> ParseInt(cell.value) == Some(r.n)
  {
    match cell
    case None => NaN
    case Some(t) =>
      if t == [] then NaN
      else match ParseInt(t)
        case Some(n) => Number(n)
        case None => Unparseable
  }

  /** The string cleaning of one cell; a missing cell stays missing. */
  function CleanCell(cell: Option<string>): (r: Option<string>)
    ensures r.None? <==> cell.None?
    ensures r.Some? ==> '.' !in r.value && ',' !in r.value
  {
    if cell.Some? then Some(CleanCurrency(cell.value)) else None
  }

  /** One cell cleaned, then converted. */
  function CurrencyCell(cell: Option<string>): (r: Numeric)
    ensures cell.None? ==> r.NaN?
    ensures r.NaN? <==> cell.None? || CleanCurrency(cell.value) == []
    ensures r.Number? <==> cell.Some? && ParseInt(CleanCurrency(cell.value)).Some?
    ensures r.Number? ==> cell.Some? && ParseInt(CleanCurrency(cell.value)) == Some(r.n)
    ensures r.Unparseable? ==> cell.Some? && ParseInt(CleanCurrency(cell.value)).None?
  {
    ToNumeric(CleanCell(cell))
  }

  /** `fillna(default)` followed by the integer cast. */
  function Filled(x: Numeric, default: int): int
    requires !x.Unparseable?
  {
    if x.Number? then x.n else default
  }

  /** Missing prepaid rent counts as no prepaid rent. */
  const PrepaidDefault: int := 0
  /** Every other missing number becomes -1 before the cast to integer. */
  const MissingNumber: int := -1

  /** What cleaning and conversion make of each cell of a column, in order. */
  function Converted(cells: seq<Option<string>>): (r: seq<Numeric>)
    ensures |r| == |cells|
    ensures forall i :: 0 <= i < |cells| ==> r[i] == CurrencyCell(cells[i])
  {
    seq(|cells|, i requires 0 <= i < |cells| => CurrencyCell(cells[i]))
  }

  /** What conversion alone makes of each cell of a column, in order. */
  function Numbers(cells: seq<Option<string>>): (r: seq<Numeric>)
    ensures |r| == |cells|
    ensures forall i :: 0 <= i < |cells| ==> r[i] == ToNumeric(cells[i])
  {
    seq(|cells|, i requires 0 <= i < |cells| => ToNumeric(cells[i]))
  }

  /** What cleaning alone makes of each cell of a column, in order. */
  function Cleaned(cells: seq<Option<string>>): (r: seq<Option<string>>)
    ensures |r| == |cells|
    ensures forall i :: 0 <= i < |cells| ==> r[i] == CleanCell(cells[i])
  {
    seq(|cells|, i requires 0 <= i < |cells| => CleanCell(cells[i]))
  }

  /** Converting the cleaned cells is converting each cell cleaned. */
  lemma {:induction false} NumbersOfCleaned(cells: seq<Option<string>>)
    ensures Numbers(Cleaned(cells)) == Converted(cells)
  {
    assert forall i :: 0 <= i < |cells| ==> Numbers(Cleaned(cells))[i] == Converted(cells)[i];
  }

  /**
   * The filled numbers of a converted column: `None` when some cell did
   * not convert; otherwise each number, with `default` for the empty cells.
   */
  function FillColumn(xs: seq<Numeric>, default: int): (r: Option<seq<int>>)
    ensures r.None? <==> Unparseable in xs
    ensures r.Some? ==> |r.value| == |xs|
    ensures r.Some? ==> forall i :: 0 <= i < |xs| ==> r.value[i] == Filled(xs[i], default)
    decreases |xs|
  {
    if xs == [] then Some([])
    else
      var rest := FillColumn(xs[1..], default);
      assert forall x :: x in xs <==> x == xs[0] || x in xs[1..];
      if xs[0].Unparseable? || rest.None? then None
      else Some([Filled(xs[0], default)] + rest.value)
  }

  /** One currency column cleaned, converted and filled, as it comes out when the joint conversion succeeds. */
  function CurrencyColumn(cells: seq<Option<string>>, default: int): (r: Option<seq<int>>)
    ensures r.None? <==> Unparseable in Converted(cells)
    ensures r.Some? ==> |r.value| == |cells|
    ensures r.Some? ==> forall i :: 0 <= i < |cells| ==> r.value[i] == Filled(Converted(cells)[i], default)
  {
    FillColumn(Converted(cells), default)
  }

  /** The four currency columns of the table, cell by cell. */
  datatype PriceCells = PriceCells(
    rent: seq<Option<string>>,     // monthly_rent
    aconto: seq<Option<string>>,   // monthly_aconto
    deposit: seq<Option<string>>,  // deposit
    prepaid: seq<Option<string>>)  // prepaid_rent

  /** The four columns after the conversions: `None` where a column keeps its text. */
  datatype PriceColumns = PriceColumns(
    rent: Option<seq<int>>,
    aconto: Option<seq<int>>,
    deposit: Option<seq<int>>,
    prepaid: Option<seq<int>>)

  /**
   * A column the `.str` methods accept: it has no rows, or some text; a
   * column of missing cells only is read as numbers and has no `.str`.
   */
  predicate HoldsText(cells: seq<Option<string>>) {
    cells == [] || exists i :: 0 <= i < |cells| && cells[i].Some?
  }

  /** The joint cleaning runs only when every one of the four columns holds text; otherwise it raises and cleans none. */
  predicate CleaningRuns(t: PriceCells) {
    HoldsText(t.rent) && HoldsText(t.aconto) && HoldsText(t.deposit) && HoldsText(t.prepaid)
  }

  /** The four columns after the cleaning step. */
  function CleanedCells(t: PriceCells): (c: PriceCells)
    ensures CleaningRuns(t) ==> c == PriceCells(Cleaned(t.rent), Cleaned(t.aconto), Cleaned(t.deposit), Cleaned(t.prepaid))
    ensures !CleaningRuns(t) ==> c == t
  {
    if CleaningRuns(t) then PriceCells(Cleaned(t.rent), Cleaned(t.aconto), Cleaned(t.deposit), Cleaned(t.prepaid))
    else t
  }

  /** The joint conversion succeeds only when every cell of every column converts. */
  predicate ConversionRuns(c: PriceCells) {
    Unparseable !in Numbers(c.rent) && Unparseable !in Numbers(c.aconto)
    && Unparseable !in Numbers(c.deposit) && Unparseable !in Numbers(c.prepaid)
  }

  /**
   * The cast of each cell, with `missing` standing for a missing cell, or
   * `None` when a cast raises (or a missing cell has no stand-in) and the
   * column keeps its text.
   */
  function CastColumn(cells: seq<Option<string>>, cast: string -> Option<int>, missing: Option<int>): (r: Option<seq<int>>)
    ensures r.None? <==>
      exists i :: 0 <= i < |cells| && ((cells[i].None? && missing.None?) || (cells[i].Some? && cast(cells[i].value).None?))
    ensures r.Some? ==> |r.value| == |cells|
    ensures r.Some? ==> forall i :: 0 <= i < |cells| ==>
      (cells[i].None? ==> missing == Some(r.value[i])) && (cells[i].Some? ==> cast(cells[i].value) == Some(r.value[i]))
  {
    var casts := CellCasts(cells, cast, missing);
    assert forall i :: 0 <= i < |cells| ==> casts[i] in casts;
    assert None in casts ==> exists i :: 0 <= i < |casts| && casts[i] == None;
    AllCast(casts)
  }

  /** The cast of each cell, in order, with `missing` for a missing one. */
  function CellCasts(cells: seq<Option<string>>, cast: string -> Option<int>, missing: Option<int>): (r: seq<Option<int>>)
    ensures |r| == |cells|
    ensures forall i :: 0 <= i < |cells| ==> r[i] == if cells[i].None? then missing else cast(cells[i].value)
  {
    seq(|cells|, i requires 0 <= i < |cells| => if cells[i].None? then missing else cast(cells[i].value))
  }

  /**
   * `fillna('0').astype(float)` on prepaid rent left as text: a missing
   * cell becomes 0, any other is cast, and one cast that raises keeps the
   * column's text.
   */
  function PrepaidFromText(cells: seq<Option<string>>): (r: Option<seq<int>>)
    ensures r.None? <==> exists i :: 0 <= i < |cells| && cells[i].Some? && ParseInt(cells[i].value).None?
    ensures r.Some? ==> |r.value| == |cells|
    ensures r.Some? ==> forall i :: 0 <= i < |cells| ==>
      (cells[i].None? ==> r.value[i] == PrepaidDefault) && (cells[i].Some? ==> ParseInt(cells[i].value) == Some(r.value[i]))
  {
    CastColumn(cells, ParseInt, Some(PrepaidDefault))
  }

  /**
   * The price block of the script (src/preprocess_scraped_data.py:86-108):
   * one cleaning of all four currency columns, one conversion of all four,
   * the prepaid default, then -1 for the other missing numbers. When the conversion raises, rent, aconto and deposit
   * all keep their text, and prepaid rent is still cast from its text.
   */
  function PriceColumnsOf(t: PriceCells): (r: PriceColumns)
    ensures r.aconto.Some? == r.rent.Some? && r.deposit.Some? == r.rent.Some?
    ensures r.rent.Some? <==> ConversionRuns(CleanedCells(t))
    ensures r.rent.Some? ==> r.prepaid.Some?
    ensures r.rent.Some? ==>
      |r.rent.value| == |t.rent| && |r.aconto.value| == |t.aconto| && |r.deposit.value| == |t.deposit|
    ensures r.prepaid.Some? ==> |r.prepaid.value| == |t.prepaid|
    ensures r.rent.None? ==> r.prepaid == PrepaidFromText(CleanedCells(t).prepaid)
    ensures CleaningRuns(t) ==>
      (r.rent.Some? <==> Unparseable !in Converted(t.rent) && Unparseable !in Converted(t.aconto)
                          && Unparseable !in Converted(t.deposit) && Unparseable !in Converted(t.prepaid))
    ensures CleaningRuns(t) && r.rent.Some? ==>
      r == PriceColumns(CurrencyColumn(t.rent, MissingNumber), CurrencyColumn(t.aconto, MissingNumber),
                        CurrencyColumn(t.deposit, MissingNumber), CurrencyColumn(t.prepaid, PrepaidDefault))
  {
    var c := CleanedCells(t);
    CleanedNumbers(t);
    if ConversionRuns(c) then
      PriceColumns(FillColumn(Numbers(c.rent), MissingNumber), FillColumn(Numbers(c.aconto), MissingNumber),
                   FillColumn(Numbers(c.deposit), MissingNumber), FillColumn(Numbers(c.prepaid), PrepaidDefault))
    else
      PriceColumns(None, None, None, PrepaidFromText(c.prepaid))
  }

  /** After the cleaning ran, converting a column is converting each of its cells cleaned. */
  lemma {:induction false} CleanedNumbers(t: PriceCells)
    ensures CleaningRuns(t) ==>
      Numbers(CleanedCells(t).rent) == Converted(t.rent) && Numbers(CleanedCells(t).aconto) == Converted(t.aconto)
      && Numbers(CleanedCells(t).deposit) == Converted(t.deposit) && Numbers(CleanedCells(t).prepaid) == Converted(t.prepaid)
  {
    NumbersOfCleaned(t.rent);
    NumbersOfCleaned(t.aconto);
    NumbersOfCleaned(t.deposit);
    NumbersOfCleaned(t.prepaid);
  }

  /** One cell that does not convert after cleaning, in any of the four columns, keeps rent, aconto and deposit all as text. */
  lemma {:induction false} OneBadCellKeepsAllText(t: PriceCells, bad: Option<string>)
    requires CleaningRuns(t)
    requires bad in t.rent + t.aconto + t.deposit + t.prepaid
    requires CurrencyCell(bad).Unparseable?
    ensures PriceColumnsOf(t).rent.None? && PriceColumnsOf(t).aconto.None? && PriceColumnsOf(t).deposit.None?
  {
    InConverted(t.rent, bad);
    InConverted(t.aconto, bad);
    InConverted(t.deposit, bad);
    InConverted(t.prepaid, bad);
  }

  lemma {:induction false} InConverted(cells: seq<Option<string>>, cell: Option<string>)
    ensures cell in cells ==> CurrencyCell(cell) in Converted(cells)
  {
    if cell in cells {
      var i :| 0 <= i < |cells| && cells[i] == cell;
      assert Converted(cells)[i] == CurrencyCell(cell);
    }
  }

  /** A price as the scraper writes it is not a number before cleaning. */
  lemma {:induction false} RawPriceDoesNotConvert(d: string)
    requires d != [] && IsDigit(d[0])
    ensures ToNumeric(Some(d + " kr.")).Unparseable?
  {
    var s := d + " kr.";
    assert s[0] == d[0] && s[|s| - 1] == '.';
    assert Strip(s) == s;
    assert !AllDigits(s) by {
      assert !IsDigit(s[|s| - 1]);
    }
  }

  /**
   * A column with rows but no text stops the cleaning of all four, so a
   * price the scraper wrote, anywhere in the table, keeps rent, aconto and
   * deposit as text.
   */
  lemma {:induction false} TextlessColumnKeepsAllText(t: PriceCells, d: string)
    requires !CleaningRuns(t)
    requires d != [] && IsDigit(d[0])
    requires Some(d + " kr.") in t.rent + t.aconto + t.deposit + t.prepaid
    ensures PriceColumnsOf(t).rent.None? && PriceColumnsOf(t).aconto.None? && PriceColumnsOf(t).deposit.None?
  {
    RawPriceDoesNotConvert(d);
    InNumbers(t.rent, Some(d + " kr."));
    InNumbers(t.aconto, Some(d + " kr."));
    InNumbers(t.deposit, Some(d + " kr."));
    InNumbers(t.prepaid, Some(d + " kr."));
  }

  lemma {:induction false} InNumbers(cells: seq<Option<string>>, cell: Option<string>)
    ensures cell in cells ==> ToNumeric(cell) in Numbers(cells)
  {
    if cell in cells {
      var i :| 0 <= i < |cells| && cells[i] == cell;
      assert Numbers(cells)[i] == ToNumeric(cell);
    }
  }

  /** The ` kr.` suffix loses its `kr`; a price without a `k` is otherwise untouched. */
  lemma {:induction false} DropKr(p: string)
    requires 'k' !in p
    ensures Replace(p + " kr.", "kr", "") == p + " ."
  {
    assert p + " kr." == (p + " ") + "kr.";
    ReplaceSkipsPrefix(p + " ", "kr.", "kr", "");
    assert Replace("kr.", "kr", "") == "" + Replace(".", "kr", "");
    assert (p + " ") + "." == p + " .";
  }

  /** Removing the dots of `p + " ."` leaves `p` without dots and the space. */
  lemma {:induction false} DropDots(p: string)
    ensures Replace(p + " .", ".", "") == Replace(p, ".", "") + " "
  {
    ReplaceCharAppend(p, " .", '.', "");
    assert " ." == " " + ".";
    ReplaceCharAppend(" ", ".", '.', "");
    assert Replace(" ", ".", "") == " ";
    assert Replace(".", ".", "") == "" + Replace([], ".", "");
  }

  /** Digits with thousands dots lose exactly the dots. */
  lemma {:induction false} DigitsOfPrice(d: string)
    requires d != [] && IsDigit(d[0])
    requires forall i :: 0 <= i < |d| ==> IsDigit(d[i]) || d[i] == '.'
    ensures 'k' !in d && ',' !in d
    ensures Replace(d, ".", "") != [] && AllDigits(Replace(d, ".", ""))
    ensures !IsSpace(Replace(d, ".", "")[0]) && !IsSpace(Replace(d, ".", "")[|Replace(d, ".", "")| - 1])
  {
    DotsDropped(d, Replace(d, ".", ""));
  }

  lemma {:induction false} DotsDropped(d: string, digits: string)
    requires d != [] && IsDigit(d[0])
    requires forall i :: 0 <= i < |d| ==> IsDigit(d[i]) || d[i] == '.'
    requires digits == Replace(d, ".", "")
    ensures 'k' !in d && ',' !in d
    ensures digits != [] && AllDigits(digits)
    ensures !IsSpace(digits[0]) && !IsSpace(digits[|digits| - 1])
  {
    ReplaceCharRemovesIt(d, '.', "");
    ReplaceKeepsChars(d, ".", "");
    assert forall i :: 0 <= i < |digits| ==> digits[i] in d && digits[i] != '.';
    KeepsFirstDigit(d, digits);
  }

  lemma {:induction false} KeepsFirstDigit(d: string, digits: string)
    requires d != [] && IsDigit(d[0]) && digits == Replace(d, ".", "")
    ensures digits != [] && digits[0] == d[0]
  {
    assert d[..1] != ".";
    assert digits == [d[0]] + Replace(d[1..], ".", "");
  }

  /** Before the strip, a scraped price is its digits and a trailing space. */
  lemma {:induction false} PriceBeforeStrip(d: string)
    requires 'k' !in d && ',' !in d
    ensures Replace(Replace(Replace(d + " kr.", "kr", ""), ".", ""), ",", "") == Replace(d, ".", "") + " "
  {
    var digits := Replace(d, ".", "");
    DropKr(d);
    DropDots(d);
    ReplaceKeepsChars(d, ".", "");
    assert ',' !in digits + " ";
    ReplaceAbsent(digits + " ", ",", "");
  }

  /**
   * A price as the scraper writes it — digits with `.` as thousands
   * separators and the ` kr.` suffix — cleans to its digits.
   */
  lemma {:induction false} ScrapedPriceCleans(d: string)
    requires d != [] && IsDigit(d[0])
    requires forall i :: 0 <= i < |d| ==> IsDigit(d[i]) || d[i] == '.'
    ensures Replace(d, ".", "") != [] && AllDigits(Replace(d, ".", ""))
    ensures CleanCurrency(d + " kr.") == Replace(d, ".", "")
  {
    DigitsOfPrice(d);
    PriceCleansTo(d, Replace(d, ".", ""));
  }

  lemma {:induction false} PriceCleansTo(d: string, digits: string)
    requires 'k' !in d && ',' !in d && digits == Replace(d, ".", "")
    requires digits == [] || (!IsSpace(digits[0]) && !IsSpace(digits[|digits| - 1]))
    ensures CleanCurrency(d + " kr.") == digits
  {
    PriceBeforeStrip(d);
    StripTrailingSpace(digits);
    CleansTo(d + " kr.", digits);
  }

  lemma {:induction false} CleansTo(s: string, digits: string)
    requires Replace(Replace(Replace(s, "kr", ""), ".", ""), ",", "") == digits + " "
    requires Strip(digits + " ") == digits
    ensures CleanCurrency(s) == digits
  {
  }

  /** ... and converts to the number those digits spell. */
  lemma {:induction false} ScrapedPriceConverts(d: string)
    requires d != [] && IsDigit(d[0])
    requires forall i :: 0 <= i < |d| ==> IsDigit(d[i]) || d[i] == '.'
    ensures AllDigits(Replace(d, ".", ""))
    ensures CurrencyCell(Some(d + " kr.")) == Number(DigitsValue(Replace(d, ".", "")))
  {
    ScrapedPriceCleans(d);
    ParseIntOfDigits(Replace(d, ".", ""));
  }

  /** Dropping the one thousands dot of a price. */
  lemma {:induction false} DropOneDot(a: string, b: string, tail: string)
    requires '.' !in a && '.' !in b && tail == "." + b
    ensures Replace(a + tail, ".", "") == a + b
  {
    ReplaceSkipsPrefix(a, tail, ".", "");
    assert tail[..1] == "." && tail[1..] == b;
    assert Replace(tail, ".", "") == Replace(b, ".", "");
    ReplaceAbsent(b, ".", "");
  }

  /** `"12.500 kr."` cleans to `"12500"`. */
  lemma {:induction false} TwelveAndAHalfThousand(d: string)
    requires d == "12.500"
    ensures CleanCurrency(d + " kr.") == "12500"
  {
    assert forall i :: 0 <= i < |d| ==> IsDigit(d[i]) || d[i] == '.';
    ScrapedPriceCleans(d);
    TwelveAndAHalfDigits(d, "12", ".500");
  }

  lemma {:induction false} TwelveAndAHalfDigits(d: string, a: string, tail: string)
    requires d == "12.500" && a == "12" && tail == ".500"
    ensures Replace(d, ".", "") == "12500"
  {
    assert d == a + tail;
    DropOneDot(a, "500", tail);
  }

  // ---------------------------------------------------------------------
  // Rent sum
  // ---------------------------------------------------------------------

  /** `total_monthly_rent`: the rent plus the aconto, both after filling. */
  function TotalMonthlyRent(rent: int, aconto: int): int {
    rent + aconto
  }

  /**
   * `total_monthly_rent` on the converted table: rent plus aconto, row by
   * row; `None` while those columns keep their text.
   */
  function TotalColumn(t: PriceCells): (r: Option<seq<int>>)
    requires |t.aconto| == |t.rent|
    ensures r.Some? <==> PriceColumnsOf(t).rent.Some?
    ensures r.Some? ==> |r.value| == |t.rent|
  {
    var c := PriceColumnsOf(t);
    if c.rent.Some? then
      Some(seq(|t.rent|, i requires 0 <= i < |t.rent| => TotalMonthlyRent(c.rent.value[i], c.aconto.value[i])))
    else None
  }

  /**
   * After the cleaning and the joint conversion succeeded, a row's total
   * is its rent plus its aconto, each filled with -1 when empty; so a row
   * without an aconto cell totals one below its rent.
   */
  lemma {:induction false} RowTotal(t: PriceCells, i: nat)
    requires |t.aconto| == |t.rent| && i < |t.rent|
    requires CleaningRuns(t) && PriceColumnsOf(t).rent.Some?
    ensures !CurrencyCell(t.rent[i]).Unparseable? && !CurrencyCell(t.aconto[i]).Unparseable?
    ensures TotalColumn(t).Some?
    ensures TotalColumn(t).value[i] ==
      Filled(CurrencyCell(t.rent[i]), MissingNumber) + Filled(CurrencyCell(t.aconto[i]), MissingNumber)
    ensures t.aconto[i].None? && CurrencyCell(t.rent[i]).Number? ==>
      TotalColumn(t).value[i] == CurrencyCell(t.rent[i]).n - 1
  {
    InConverted(t.rent, t.rent[i]);
    InConverted(t.aconto, t.aconto[i]);
  }

  /** Two prices as the scraper writes them, in one row, total the numbers their digits spell. */
  lemma {:induction false} ScrapedRowTotal(t: PriceCells, i: nat, d: string, e: string)
    requires |t.aconto| == |t.rent| && i < |t.rent|
    requires CleaningRuns(t) && PriceColumnsOf(t).rent.Some?
    requires d != [] && IsDigit(d[0]) && forall k :: 0 <= k < |d| ==> IsDigit(d[k]) || d[k] == '.'
    requires e != [] && IsDigit(e[0]) && forall k :: 0 <= k < |e| ==> IsDigit(e[k]) || e[k] == '.'
    requires t.rent[i] == Some(d + " kr.") && t.aconto[i] == Some(e + " kr.")
    ensures AllDigits(Replace(d, ".", "")) && AllDigits(Replace(e, ".", ""))
    ensures TotalColumn(t).Some?
    ensures TotalColumn(t).value[i] == DigitsValue(Replace(d, ".", "")) + DigitsValue(Replace(e, ".", ""))
  {
    ScrapedPriceConverts(d);
    ScrapedPriceConverts(e);
    RowTotal(t, i);
  }

  // ---------------------------------------------------------------------
  // Energy mark
  // ---------------------------------------------------------------------

  /**
   * The file name after the last `/` of the energy-label image path, cut
   * at its first `_`; a missing path counts as empty text.
   */
  function EnergyMark(src: Option<string>): (mark: string)
    ensures '/' !in mark && '_' !in mark
  {
    var path := if src.Some? then src.value else "";
    var file := AfterLast(path, '/');
    var mark := BeforeFirst(file, '_');
    assert forall c :: c in mark ==> c in file by {
      SplitPieceWithin(file, '_');
    }
    mark
  }

  /** The mark of an image path `dir/mark_rest` is `mark`. */
  lemma {:induction false} EnergyMarkOfPath(dir: string, mark: string, rest: string)
    requires '/' !in mark && '/' !in rest && '_' !in mark
    ensures EnergyMark(Some(dir + "/" + mark + "_" + rest)) == mark
  {
    var file := mark + "_" + rest;
    assert dir + "/" + mark + "_" + rest == dir + ['/'] + file;
    assert '/' !in file;
    AfterLastOf(dir, '/', file);
    assert file == mark + ['_'] + rest;
    BeforeFirstOf(mark, '_', rest);
  }

  /** The scraper's `'none'` sentinel stays `'none'`; a missing path gives empty text. */
  lemma {:induction false} EnergyMarkOfSentinels()
    ensures EnergyMark(Some("none")) == "none"
    ensures EnergyMark(None) == ""
  {
    SplitWithoutSeparator("none", '/');
    SplitWithoutSeparator("none", '_');
    SplitWithoutSeparator("", '/');
    SplitWithoutSeparator("", '_');
  }

  /** Every piece of a split consists of characters of the text. */
  lemma {:induction false} SplitPieceWithin(s: string, c: char)
    ensures forall i, x :: 0 <= i < |Split(s, c)| && x in Split(s, c)[i] ==> x in s
  {
    var parts := Split(s, c);
    forall i, x | 0 <= i < |parts| && x in parts[i]
      ensures x in s
    {
      JoinContainsPart(parts, [c], i, x);
    }
  }

  /** A character of one part is a character of the joined text. */
  lemma {:induction false} JoinContainsPart(parts: seq<string>, sep: string, i: nat, x: char)
    requires i < |parts| && x in parts[i]
    ensures x in Join(parts, sep)
    decreases |parts|
  {
    if |parts| > 1 {
      if i > 0 {
        JoinContainsPart(parts[1..], sep, i - 1, x);
      }
      assert Join(parts, sep) == parts[0] + sep + Join(parts[1..], sep);
    }
  }

  // ---------------------------------------------------------------------
  // Size
  // ---------------------------------------------------------------------

  /** The square-metre unit the size texts end with. */
  const SquareMetres: string := "m\U{B2}"

  /** The unit removed, whitespace stripped, and the text before the first `.` kept. */
  function SizeText(s: string): (r: string)
    ensures '.' !in r
  {
    BeforeFirst(Strip(Replace(s, SquareMetres, "")), '.')
  }

  /** The integer cast of the cleaned size text; `None` where it raises. */
  function SizeSqm(s: string): Option<int> {
    ParseInt(SizeText(s))
  }

  /**
   * The present cells, each as often as it occurs: rows whose size is
   * missing are dropped (`SomesAppend` says the rest keep their order).
   */
  function Present(cells: seq<Option<string>>): (r: seq<string>)
    ensures |r| <= |cells|
    ensures forall s :: s in r <==> Some(s) in cells
    ensures forall s :: multiset(r)[s] == multiset(cells)[Some(s)]
  {
    SomesCount(cells);
    Somes(cells)
  }

  /** Every integer cast, or `None` when one of them raises. */
  function AllCast(casts: seq<Option<int>>): (r: Option<seq<int>>)
    ensures r.None? <==> None in casts
    ensures r.Some? ==> |r.value| == |casts|
    ensures r.Some? ==> forall i :: 0 <= i < |casts| ==> casts[i] == Some(r.value[i])
    decreases |casts|
  {
    if casts == [] then Some([])
    else
      var rest := AllCast(casts[1..]);
      assert forall x :: x in casts <==> x == casts[0] || x in casts[1..];
      if casts[0].None? || rest.None? then None
      else Some([casts[0].value] + rest.value)
  }

  /** The integer cast of each size text, in order. */
  function Casts(texts: seq<string>): (r: seq<Option<int>>)
    ensures |r| == |texts|
    ensures forall i :: 0 <= i < |texts| ==> r[i] == SizeSqm(texts[i])
  {
    seq(|texts|, i requires 0 <= i < |texts| => SizeSqm(texts[i]))
  }

  /** The rows from index `i` on, by index and in order, that have a size. */
  function KeptFrom(sizes: seq<Option<string>>, i: nat): (r: seq<nat>)
    requires i <= |sizes|
    ensures forall k :: 0 <= k < |r| ==> i <= r[k] < |sizes| && sizes[r[k]].Some?
    ensures forall k, l :: 0 <= k < l < |r| ==> r[k] < r[l]
    decreases |sizes| - i
  {
    if i == |sizes| then []
    else (if sizes[i].Some? then [i] else []) + KeptFrom(sizes, i + 1)
  }

  /** Every row from index `i` on that has a size is kept. */
  lemma {:induction false} KeptFromComplete(sizes: seq<Option<string>>, i: nat)
    requires i <= |sizes|
    ensures forall j :: i <= j < |sizes| && sizes[j].Some? ==> j in KeptFrom(sizes, i)
    decreases |sizes| - i
  {
    if i < |sizes| {
      KeptFromComplete(sizes, i + 1);
      var head := if sizes[i].Some? then [i] else [];
      assert KeptFrom(sizes, i) == head + KeptFrom(sizes, i + 1);
    }
  }

  /**
   * The rows, by index and in order, that keep a size: the rows every
   * column of the table keeps after `df[df['size_sqm'].notna()]`.
   */
  function KeptRows(sizes: seq<Option<string>>): (r: seq<nat>)
    ensures forall k :: 0 <= k < |r| ==> r[k] < |sizes| && sizes[r[k]].Some?
    ensures forall i :: 0 <= i < |sizes| && sizes[i].Some? ==> i in r
    ensures forall k, l :: 0 <= k < l < |r| ==> r[k] < r[l]
  {
    KeptFromComplete(sizes, 0);
    KeptFrom(sizes, 0)
  }

  /** A column of the table restricted to the given rows, in their order. */
  function Rows<T>(column: seq<T>, rows: seq<nat>): (r: seq<T>)
    requires forall k :: 0 <= k < |rows| ==> rows[k] < |column|
    ensures |r| == |rows|
    ensures forall k :: 0 <= k < |rows| ==> r[k] == column[rows[k]]
  {
    seq(|rows|, k requires 0 <= k < |rows| => column[rows[k]])
  }

  /** From index `i` on, the k-th row with a size holds the k-th present size. */
  lemma {:induction false} KeptFromSizes(sizes: seq<Option<string>>, i: nat)
    requires i <= |sizes|
    ensures |KeptFrom(sizes, i)| == |Somes(sizes[i..])|
    ensures forall k :: 0 <= k < |KeptFrom(sizes, i)| ==> sizes[KeptFrom(sizes, i)[k]] == Some(Somes(sizes[i..])[k])
    decreases |sizes| - i
  {
    if i < |sizes| {
      KeptFromSizes(sizes, i + 1);
      var later, present := KeptFrom(sizes, i + 1), Somes(sizes[i + 1..]);
      var rest := sizes[i..];
      assert rest[0] == sizes[i] && rest[1..] == sizes[i + 1..];
      if sizes[i].Some? {
        assert Somes(rest) == [sizes[i].value] + present;
        assert KeptFrom(sizes, i) == [i] + later;
        forall k | 0 <= k < |later| + 1
          ensures sizes[([i] + later)[k]] == Some(([sizes[i].value] + present)[k])
        {
          if k > 0 {
            assert ([i] + later)[k] == later[k - 1];
            assert ([sizes[i].value] + present)[k] == present[k - 1];
          }
        }
      } else {
        assert Somes(rest) == present;
        assert KeptFrom(sizes, i) == later;
      }
    }
  }

  /** The k-th kept row holds the k-th present size. */
  lemma {:induction false} KeptSizes(sizes: seq<Option<string>>)
    ensures |KeptRows(sizes)| == |Present(sizes)|
    ensures forall k :: 0 <= k < |KeptRows(sizes)| ==> sizes[KeptRows(sizes)[k]] == Some(Present(sizes)[k])
  {
    KeptFromSizes(sizes, 0);
    assert sizes[0..] == sizes;
  }

  /**
   * The outcome of the size block: the rows it keeps, and the cast size
   * column, or `None` when a cast raises and the column keeps its text.
   */
  datatype SizeBlock = SizeBlock(rows: seq<nat>, sqm: Option<seq<int>>)

  /**
   * The size block (src/preprocess_scraped_data.py:116-120): the rows
   * without a size leave the whole table first, then the remaining sizes
   * are cast together. The drop stands whether or not the cast raises.
   */
  function SizeColumn(cells: seq<Option<string>>): (r: SizeBlock)
    ensures r.rows == KeptRows(cells)
    ensures forall k :: 0 <= k < |r.rows| ==> r.rows[k] < |cells| && cells[r.rows[k]].Some?
    ensures forall i :: 0 <= i < |cells| ==> (i in r.rows <==> cells[i].Some?)
    ensures forall k, l :: 0 <= k < l < |r.rows| ==> r.rows[k] < r.rows[l]
    ensures |r.rows| == |Present(cells)|
    ensures r.sqm.None? <==> exists k :: 0 <= k < |r.rows| && cells[r.rows[k]].Some? && SizeSqm(cells[r.rows[k]].value).None?
    ensures r.sqm.Some? ==> |r.sqm.value| == |r.rows|
    ensures r.sqm.Some? ==> forall k :: 0 <= k < |r.rows| ==>
      cells[r.rows[k]].Some? && SizeSqm(cells[r.rows[k]].value) == Some(r.sqm.value[k])
  {
    KeptSizes(cells);
    var rows := KeptRows(cells);
    var sqm := AllCast(Casts(Present(cells)));
    CastsOfRows(cells, rows, Present(cells), sqm);
    SizeBlock(rows, sqm)
  }

  /** The casts of the present sizes, read back through the rows that hold them. */
  lemma {:induction false} CastsOfRows(cells: seq<Option<string>>, rows: seq<nat>, present: seq<string>, sqm: Option<seq<int>>)
    requires |rows| == |present|
    requires forall k :: 0 <= k < |rows| ==> rows[k] < |cells| && cells[rows[k]] == Some(present[k])
    requires sqm == AllCast(Casts(present))
    ensures sqm.None? <==> exists k :: 0 <= k < |rows| && cells[rows[k]].Some? && SizeSqm(cells[rows[k]].value).None?
    ensures sqm.Some? ==> |sqm.value| == |rows|
    ensures sqm.Some? ==> forall k :: 0 <= k < |rows| ==>
      cells[rows[k]].Some? && SizeSqm(cells[rows[k]].value) == Some(sqm.value[k])
  {
    var casts := Casts(present);
    if sqm.None? {
      var k :| 0 <= k < |casts| && casts[k] == None;
      assert cells[rows[k]].Some? && SizeSqm(cells[rows[k]].value).None?;
    } else {
      forall k | 0 <= k < |rows| && cells[rows[k]].Some?
        ensures SizeSqm(cells[rows[k]].value).Some?
      {
        assert casts[k] == Some(sqm.value[k]);
      }
    }
  }

  /**
   * The rows kept by the size block, in the column of a rule that runs
   * after it: a missing cell there stops the rule only if its row kept a
   * size.
   */
  lemma {:induction false} KeptCellsPresent<T>(column: seq<Option<T>>, sizes: seq<Option<string>>)
    requires |column| == |sizes|
    requires forall i :: 0 <= i < |sizes| && column[i].None? ==> sizes[i].None?
    ensures None !in Rows(column, KeptRows(sizes))
  {
    var rows := KeptRows(sizes);
    var kept := Rows(column, rows);
    forall k | 0 <= k < |kept|
      ensures kept[k].Some?
    {
      assert sizes[rows[k]].Some?;
    }
  }

  /**
   * Listings whose address is missing only where the size is missing as
   * well: the size block has dropped those rows, so the area column is
   * written for every row left.
   */
  lemma {:induction false} DroppedRowsSpareArea(addresses: seq<Option<string>>, sizes: seq<Option<string>>)
    requires |addresses| == |sizes|
    requires forall i :: 0 <= i < |sizes| && addresses[i].None? ==> sizes[i].None?
    ensures AreaColumn(Rows(addresses, KeptRows(sizes))).Some?
    ensures |AreaColumn(Rows(addresses, KeptRows(sizes))).value| == |Present(sizes)|
  {
    KeptCellsPresent(addresses, sizes);
    KeptSizes(sizes);
  }

  /** The `m²` unit of a size without an `m` leaves only its preceding space. */
  lemma {:induction false} DropUnit(p: string)
    requires 'm' !in p
    ensures Replace(p + " " + SquareMetres, SquareMetres, "") == p + " "
  {
    assert p + " " + SquareMetres == (p + " ") + SquareMetres;
    ReplaceSkipsPrefix(p + " ", SquareMetres, SquareMetres, "");
    assert Replace(SquareMetres, SquareMetres, "") == "" + Replace([], SquareMetres, "");
    assert (p + " ") + "" == p + " ";
  }

  /** The cast of a size text whose cleaning steps are known. */
  lemma {:induction false} SizeFrom(s: string, stripped: string, kept: string, n: int)
    requires Strip(Replace(s, SquareMetres, "")) == stripped
    requires BeforeFirst(stripped, '.') == kept
    requires ParseInt(kept) == Some(n)
    ensures SizeSqm(s) == Some(n)
  {
  }

  /** A scraped size — whole square metres and the unit — gives that number. */
  lemma {:induction false} ScrapedSize(n: nat)
    ensures SizeSqm(NatToString(n) + " " + SquareMetres) == Some(n)
  {
    var whole := NatToString(n);
    assert 'm' !in whole && '.' !in whole;
    DropUnit(whole);
    StripTrailingSpace(whole);
    SplitWithoutSeparator(whole, '.');
    ParseIntOfNatToString(n);
    SizeFrom(whole + " " + SquareMetres, whole, whole, n);
  }

  /** With decimals, only the whole square metres count. */
  lemma {:induction false} ScrapedSizeWithDecimals(n: nat, decimals: string)
    requires AllDigits(decimals)
    ensures SizeSqm(NatToString(n) + "." + decimals + " " + SquareMetres) == Some(n)
  {
    var whole := NatToString(n);
    var t := whole + "." + decimals;
    assert 'm' !in t && '.' !in whole;
    DropUnit(t);
    assert t[0] == whole[0] && (t[|t| - 1] == '.' || IsDigit(t[|t| - 1]));
    StripTrailingSpace(t);
    assert t == whole + ['.'] + decimals;
    BeforeFirstOf(whole, '.', decimals);
    ParseIntOfNatToString(n);
    SizeFrom(t + " " + SquareMetres, t, whole, n);
  }

  // ---------------------------------------------------------------------
  // Area
  // ---------------------------------------------------------------------

  /**
   * The last comma-separated part of the address — of its part before
   * the first `-` when it has one — with the whitespace stripped.
   */
  function Area(address: string): (r: string)
    ensures ',' !in r
    ensures '-' in address ==> '-' !in r
  {
    if '-' in address then
      var head := BeforeFirst(address, '-');
      var last := AfterLast(head, ',');
      SplitPieceWithin(head, ',');
      assert '-' !in last;
      StripKeepsAbsent(last, '-');
      StripKeepsAbsent(last, ',');
      Strip(last)
    else
      var last := AfterLast(address, ',');
      StripKeepsAbsent(last, ',');
      Strip(last)
  }

  /** The address the scraper joins from street and postcode line yields the postcode line. */
  lemma {:induction false} AreaOfScrapedAddress(street: string, district: string)
    requires ',' !in district && '-' !in street && '-' !in district
    requires district == [] || (!IsSpace(district[0]) && !IsSpace(district[|district| - 1]))
    ensures Area(street + ", " + district) == district
  {
    var address := street + ", " + district;
    assert address == street + [','] + (" " + district);
    assert '-' !in address;
    AfterLastOf(street, ',', " " + district);
    StripLeadingSpace(district);
  }

  /** With a `-`, the part after the last comma before it is kept. */
  lemma {:induction false} AreaBeforeDash(street: string, district: string, rest: string)
    requires ',' !in district && '-' !in street && '-' !in district
    requires district == [] || (!IsSpace(district[0]) && !IsSpace(district[|district| - 1]))
    ensures Area(street + ", " + district + " - " + rest) == district
  {
    var address := street + ", " + district + " - " + rest;
    var head := street + ", " + district + " ";
    assert address == head + ['-'] + (" " + rest);
    assert '-' in address;
    BeforeFirstOf(head, '-', " " + rest);
    assert head == street + [','] + (" " + district + " ");
    AfterLastOf(street, ',', " " + district + " ");
    StripSurroundingSpaces(district);
  }

  /**
   * The area column: `None` — no `area` column is written — when an
   * address is missing, since `'-' in x` raises on a missing cell.
   */
  function AreaColumn(addresses: seq<Option<string>>): (r: Option<seq<string>>)
    ensures r.None? <==> None in addresses
    ensures r.Some? ==> |r.value| == |addresses|
    ensures r.Some? ==> forall i :: 0 <= i < |addresses| ==> addresses[i].Some? && r.value[i] == Area(addresses[i].value)
  {
    if None in addresses then None
    else
      assert forall i :: 0 <= i < |addresses| ==> addresses[i] in addresses;
      Some(seq(|addresses|, i requires 0 <= i < |addresses| => if addresses[i].Some? then Area(addresses[i].value) else ""))
  }

  /** When the area column is written, a row with a scraped address holds its postcode line. */
  lemma {:induction false} AreaColumnOfScrapedAddress(addresses: seq<Option<string>>, i: nat, street: string, district: string)
    requires i < |addresses| && addresses[i] == Some(street + ", " + district)
    requires ',' !in district && '-' !in street && '-' !in district
    requires district == [] || (!IsSpace(district[0]) && !IsSpace(district[|district| - 1]))
    requires AreaColumn(addresses).Some?
    ensures AreaColumn(addresses).value[i] == district
  {
    AreaOfScrapedAddress(street, district);
  }

  // ---------------------------------------------------------------------
  // Floor
  // ---------------------------------------------------------------------

  const GroundFloor: string := "Stuen"
  const Cellar: string := "K\U{E6}lder"

  /**
   * The floor text as the script rewrites it: `Stuen` to `0`, `Kælder`
   * to `-1`, then every `-` to `0`, then every `.` removed — so the `-`
   * just written for the cellar becomes a `0` as well.
   */
  function FloorTextAsWritten(x: string): (r: string)
    ensures '-' !in r && '.' !in r
  {
    var a := Replace(x, GroundFloor, "0");
    var b := Replace(a, Cellar, "-1");
    var c := Replace(b, "-", "0");
    ReplaceCharRemovesIt(b, '-', "0");
    ReplaceCharRemovesIt(c, '.', "");
    ReplaceKeepsChars(c, ".", "");
    Replace(c, ".", "")
  }

  function FloorAsWritten(x: string): Option<int> {
    ParseInt(FloorTextAsWritten(x))
  }

  /** The rewrite as written, given the result of each of its steps. */
  lemma {:induction false} FloorAsWrittenSteps(x: string, a: string, b: string, c: string, t: string)
    requires Replace(x, GroundFloor, "0") == a && Replace(a, Cellar, "-1") == b
    requires Replace(b, "-", "0") == c && Replace(c, ".", "") == t
    ensures FloorTextAsWritten(x) == t
  {
  }

  /** The cellar comes out as floor 1, where the comment beside the rule says -1. */
  lemma {:induction false} CellarAsWrittenIsFirstFloor()
    ensures FloorTextAsWritten(Cellar) == "01"
    ensures FloorAsWritten(Cellar) == Some(1)
  {
    CellarTextAsWritten(Cellar);
    ZeroOne(FloorTextAsWritten(Cellar));
  }

  lemma {:induction false} CellarTextAsWritten(x: string)
    requires x == Cellar
    ensures FloorTextAsWritten(x) == "01"
  {
    ReplaceAbsent(x, GroundFloor, "0");
    assert Replace(x, Cellar, "-1") == "-1" by {
      assert Replace(x, Cellar, "-1") == "-1" + Replace([], Cellar, "-1");
    }
    SignBecomesZero("-1", "1");
    ReplaceAbsent("01", ".", "");
    FloorAsWrittenSteps(x, x, "-1", "01", "01");
  }

  lemma {:induction false} SignBecomesZero(t: string, rest: string)
    requires t == "-1" && rest == "1"
    ensures Replace(t, "-", "0") == "01"
  {
    assert t[..1] == "-" && t[1..] == rest;
    assert Replace(t, "-", "0") == "0" + Replace(rest, "-", "0");
    ReplaceAbsent(rest, "-", "0");
  }

  lemma {:induction false} ZeroOne(t: string)
    requires t == "01"
    ensures ParseInt(t) == Some(1)
  {
    assert AllDigits(t) && !IsSpace(t[0]) && !IsSpace(t[|t| - 1]);
    ParseIntOfDigits(t);
    var p := t[..|t| - 1];
    assert p == [t[0]] && p[..0] == [];
    assert DigitsValue(p) == 0;
    assert DigitsValue(t) == 1;
  }

  /**
   * The rewrite the comment describes: the `-` placeholder is turned into
   * `0` before the cellar is given its `-1`, so the cellar keeps its sign.
   */
  function FloorText(x: string): (r: string)
    ensures '.' !in r
  {
    var a := Replace(x, GroundFloor, "0");
    var b := Replace(a, "-", "0");
    var c := Replace(b, Cellar, "-1");
    ReplaceCharRemovesIt(c, '.', "");
    Replace(c, ".", "")
  }

  function Floor(x: string): Option<int> {
    ParseInt(FloorText(x))
  }

  /** The corrected rewrite, given the result of each of its steps. */
  lemma {:induction false} FloorSteps(x: string, a: string, b: string, c: string, t: string)
    requires Replace(x, GroundFloor, "0") == a && Replace(a, "-", "0") == b
    requires Replace(b, Cellar, "-1") == c && Replace(c, ".", "") == t
    ensures FloorText(x) == t
  {
  }

  /** Under the corrected rule the ground floor is 0 ... */
  lemma {:induction false} GroundFloorIsZero()
    ensures Floor(GroundFloor) == Some(0)
  {
    GroundFloorText(GroundFloor, "0");
    ParseIntOfDigits("0");
  }

  lemma {:induction false} GroundFloorText(x: string, z: string)
    requires x == GroundFloor && z == "0"
    ensures FloorText(x) == z
  {
    assert Replace(x, GroundFloor, "0") == z by {
      assert Replace(x, GroundFloor, "0") == z + Replace([], GroundFloor, "0");
    }
    ReplaceAbsent(z, "-", "0");
    ReplaceAbsent(z, Cellar, "-1");
    ReplaceAbsent(z, ".", "");
    FloorSteps(x, z, z, z, z);
  }

  /** ... so is the `-` placeholder ... */
  lemma {:induction false} PlaceholderIsZero()
    ensures Floor("-") == Some(0)
  {
    PlaceholderText("-", "0");
    ParseIntOfDigits("0");
  }

  lemma {:induction false} PlaceholderText(x: string, z: string)
    requires x == "-" && z == "0"
    ensures FloorText(x) == z
  {
    ReplaceAbsent(x, GroundFloor, "0");
    assert Replace(x, "-", "0") == z by {
      assert Replace(x, "-", "0") == z + Replace([], "-", "0");
    }
    ReplaceAbsent(z, Cellar, "-1");
    ReplaceAbsent(z, ".", "");
    FloorSteps(x, x, z, z, z);
  }

  /** ... and the cellar is -1. */
  lemma {:induction false} CellarText(x: string)
    requires x == Cellar
    ensures FloorText(x) == "-1"
  {
    ReplaceAbsent(x, GroundFloor, "0");
    ReplaceAbsent(x, "-", "0");
    assert Replace(x, Cellar, "-1") == "-1" by {
      assert Replace(x, Cellar, "-1") == "-1" + Replace([], Cellar, "-1");
    }
    ReplaceAbsent("-1", ".", "");
    FloorSteps(x, x, x, "-1", "-1");
  }

  lemma {:induction false} MinusOne(t: string)
    requires t == "-1"
    ensures ParseInt(t) == Some(-1)
  {
    assert !IsSpace(t[0]) && !IsSpace(t[|t| - 1]);
    assert Strip(t) == t;
    var d := t[1..];
    assert d == [d[0]] && d[0] == '1';
    assert DigitsValue(d) == 1;
  }

  lemma {:induction false} CellarIsMinusOne()
    ensures FloorText(Cellar) == "-1"
    ensures Floor(Cellar) == Some(-1)
  {
    CellarText(Cellar);
    MinusOne(FloorText(Cellar));
  }

  /** A numbered floor such as `3.` is its number under both rules. */
  lemma {:induction false} NumberedFloor(n: nat)
    ensures Floor(NatToString(n) + ".") == Some(n)
    ensures FloorAsWritten(NatToString(n) + ".") == Some(n)
  {
    var d := NatToString(n);
    assert 'S' !in d && 'K' !in d && '-' !in d && '.' !in d;
    ReplaceSkipsPrefix(d, ".", GroundFloor, "0");
    ReplaceSkipsPrefix(d, ".", Cellar, "-1");
    ReplaceSkipsPrefix(d, ".", "-", "0");
    ReplaceSkipsPrefix(d, ".", ".", "");
    assert Replace(".", GroundFloor, "0") == ".";
    assert Replace(".", Cellar, "-1") == ".";
    assert Replace(".", "-", "0") == ".";
    assert Replace(".", ".", "") == "" + Replace([], ".", "");
    assert d + "" == d;
    ParseIntOfNatToString(n);
  }

  /** The two rules differ only on cells that mention the cellar. */
  lemma {:induction false} FloorAgreesWithoutCellar(x: string)
    requires 'K' !in x
    ensures FloorAsWritten(x) == Floor(x)
  {
    var a := Replace(x, GroundFloor, "0");
    ReplaceKeepsChars(x, GroundFloor, "0");
    ReplaceAbsent(a, Cellar, "-1");
    var b := Replace(a, "-", "0");
    ReplaceKeepsChars(a, "-", "0");
    ReplaceAbsent(b, Cellar, "-1");
  }

  /**
   * The floor column as written: `None` — the column keeps its text — when
   * a cell is missing (`replace` raises on it) or a rewritten cell does not
   * cast.
   */
  function FloorColumnAsWritten(cells: seq<Option<string>>): (r: Option<seq<int>>)
    ensures r.None? <==> exists i :: 0 <= i < |cells| && (cells[i].None? || FloorAsWritten(cells[i].value).None?)
    ensures r.Some? ==> |r.value| == |cells|
    ensures r.Some? ==> forall i :: 0 <= i < |cells| ==> cells[i].Some? && FloorAsWritten(cells[i].value) == Some(r.value[i])
  {
    CastColumn(cells, FloorAsWritten, None)
  }

  /** The floor column under the corrected rule, with the same column-level failure. */
  function FloorColumn(cells: seq<Option<string>>): (r: Option<seq<int>>)
    ensures r.None? <==> exists i :: 0 <= i < |cells| && (cells[i].None? || Floor(cells[i].value).None?)
    ensures r.Some? ==> |r.value| == |cells|
    ensures r.Some? ==> forall i :: 0 <= i < |cells| ==> cells[i].Some? && Floor(cells[i].value) == Some(r.value[i])
  {
    CastColumn(cells, Floor, None)
  }

  /** A cellar row reads 1 in the column as written and -1 in the corrected one. */
  lemma {:induction false} CellarRow(cells: seq<Option<string>>, i: nat)
    requires i < |cells| && cells[i] == Some(Cellar)
    requires FloorColumnAsWritten(cells).Some? && FloorColumn(cells).Some?
    ensures FloorColumnAsWritten(cells).value[i] == 1
    ensures FloorColumn(cells).value[i] == -1
  {
    CellarAsWrittenIsFirstFloor();
    CellarIsMinusOne();
  }

  /** Without a cellar in any cell, the two columns are the same. */
  lemma {:induction false} FloorColumnsAgreeWithoutCellar(cells: seq<Option<string>>)
    requires forall i :: 0 <= i < |cells| && cells[i].Some? ==> 'K' !in cells[i].value
    ensures FloorColumnAsWritten(cells) == FloorColumn(cells)
  {
    forall i | 0 <= i < |cells| && cells[i].Some?
      ensures FloorAsWritten(cells[i].value) == Floor(cells[i].value)
    {
      FloorAgreesWithoutCellar(cells[i].value);
    }
    assert CellCasts(cells, FloorAsWritten, None) == CellCasts(cells, Floor, None);
  }

  // ---------------------------------------------------------------------
  // Available-from dates
  // ---------------------------------------------------------------------

  /** The month names, each with a space on either side, and the number that replaces each. */
  const DanishMonths: seq<(string, string)> := [
    (" januar ", "1."), (" februar ", "2."), (" marts ", "3."), (" april ", "4."),
    (" maj ", "5."), (" juni ", "6."), (" juli ", "7."), (" august ", "8."),
    (" september ", "9."), (" oktober ", "10."), (" november ", "11."), (" december ", "12.")
  ]

  /** The first month, from position `i` on, whose name the text contains. */
  function FirstMonthFrom(date: string, i: nat): (r: Option<nat>)
    ensures r.Some? ==> i <= r.value < |DanishMonths| && Contains(date, DanishMonths[r.value].0)
    ensures r.Some? ==> forall j :: i <= j < r.value ==> !Contains(date, DanishMonths[j].0)
    ensures r.None? ==> forall j :: i <= j < |DanishMonths| ==> !Contains(date, DanishMonths[j].0)
    decreases |DanishMonths| - i
  {
    if i >= |DanishMonths| then None
    else if Contains(date, DanishMonths[i].0) then Some(i)
    else FirstMonthFrom(date, i + 1)
  }

  /** The text with the first month name it contains replaced by that month's number. */
  function FormattedDate(date: string): string {
    match FirstMonthFrom(date, 0)
    case None => date
    case Some(i) => Replace(date, DanishMonths[i].0, DanishMonths[i].1)
  }

  /** `format_date`: the month names are tried in calendar order and the first one found is replaced. */
  method FormatDate(date: string) returns (r: string)
    ensures r == FormattedDate(date)
  {
    var i := 0;
    while i < |DanishMonths|
      invariant 0 <= i <= |DanishMonths|
      invariant FirstMonthFrom(date, i) == FirstMonthFrom(date, 0)
    {
      var (month, number) := DanishMonths[i];
      if Contains(date, month) {
        return Replace(date, month, number);
      }
      i := i + 1;
    }
    return date;
  }

  /**
   * What `format_date` promises: the first month name present, in calendar
   * order, is replaced by its number, and a text without any is returned
   * as it is.
   */
  lemma {:induction false} FormattedDateReplacesFirstMonth(date: string, j: nat)
    ensures (forall k :: 0 <= k < |DanishMonths| ==> !Contains(date, DanishMonths[k].0)) ==> FormattedDate(date) == date
    ensures j < |DanishMonths| && Contains(date, DanishMonths[j].0)
              && (forall k :: 0 <= k < j ==> !Contains(date, DanishMonths[k].0))
            ==> FormattedDate(date) == Replace(date, DanishMonths[j].0, DanishMonths[j].1)
  {
  }

  /** Every month name has spaces; a date without one, like `15.10.2026`, is left alone. */
  lemma {:induction false} DateWithoutSpacesUnchanged(date: string)
    ensures ' ' !in date ==> FormattedDate(date) == date
  {
    if ' ' !in date {
      MonthNamesStartWithSpace();
      forall k | 0 <= k < |DanishMonths|
        ensures !Contains(date, DanishMonths[k].0)
      {
        AbsentFirstChar(date, DanishMonths[k].0);
      }
      FormattedDateReplacesFirstMonth(date, 0);
    }
  }

  lemma {:induction false} MonthNamesStartWithSpace()
    ensures forall k :: 0 <= k < |DanishMonths| ==> DanishMonths[k].0 != [] && DanishMonths[k].0[0] == ' '
  {
  }

  lemma {:induction false} AbsentFirstChar(s: string, pat: string)
    requires pat != [] && pat[0] !in s
    ensures !Contains(s, pat)
  {
    if Contains(s, pat) {
      ContainsFirstChar(s, pat);
    }
  }

  /** The cell text the site shows for "as soon as possible". */
  const AsSoonAsPossible: string := "Snarest muligt"

  /** The cell with "as soon as possible" replaced by today's date, then the month rewritten. */
  function AvailableFrom(cell: string, today: string): (r: string)
    ensures cell == AsSoonAsPossible ==> r == FormattedDate(today)
    ensures cell == AsSoonAsPossible && ' ' !in today ==> r == today
    ensures cell != AsSoonAsPossible ==> r == FormattedDate(cell)
  {
    DateWithoutSpacesUnchanged(today);
    FormattedDate(if cell == AsSoonAsPossible then today else cell)
  }

  /**
   * The available-from rewrite (src/preprocess_scraped_data.py:154-156):
   * "as soon as possible" is replaced by today's date in every cell, then
   * every cell is formatted;
   * a missing cell makes the formatting raise (`in` on a missing value), so
   * that the column keeps only the replacement.
   */
  function AvailableFromColumn(cells: seq<Option<string>>, today: string): (r: seq<Option<string>>)
    ensures |r| == |cells|
    ensures forall i :: 0 <= i < |cells| ==> (r[i].None? <==> cells[i].None?)
    ensures None in cells ==> forall i :: 0 <= i < |cells| && cells[i].Some? ==>
      r[i] == Some(if cells[i].value == AsSoonAsPossible then today else cells[i].value)
    ensures None !in cells ==> forall i :: 0 <= i < |cells| ==> r[i] == Some(AvailableFrom(cells[i].value, today))
  {
    var replaced := seq(|cells|, i requires 0 <= i < |cells| =>
      if cells[i] == Some(AsSoonAsPossible) then Some(today) else cells[i]);
    if None in cells then replaced
    else
      seq(|cells|, i requires 0 <= i < |cells| =>
        if replaced[i].Some? then Some(FormattedDate(replaced[i].value)) else None)
  }

  /**
   * The available-from rule runs after the size block: when dates are
   * missing only in rows without a size, every row left is formatted.
   */
  lemma {:induction false} DroppedRowsFormatDates(dates: seq<Option<string>>, sizes: seq<Option<string>>, today: string)
    requires |dates| == |sizes|
    requires forall i :: 0 <= i < |sizes| && dates[i].None? ==> sizes[i].None?
    ensures forall k :: 0 <= k < |KeptRows(sizes)| ==>
      dates[KeptRows(sizes)[k]].Some? &&
      AvailableFromColumn(Rows(dates, KeptRows(sizes)), today)[k] == Some(AvailableFrom(dates[KeptRows(sizes)[k]].value, today))
  {
    KeptCellsPresent(dates, sizes);
  }

  /**
   * With a missing cell in the column, a date written with a month name
   * keeps it: `1. juni 2026` is not rewritten to `1.6.2026`.
   */
  lemma {:induction false} MissingCellSkipsFormatting(cells: seq<Option<string>>, today: string, i: nat, j: nat)
    requires i < |cells| && j < |cells| && cells[j].None?
    requires cells[i].Some? && cells[i].value != AsSoonAsPossible
    ensures AvailableFromColumn(cells, today)[i] == cells[i]
  {
    assert cells[j] in cells;
  }

  // ---------------------------------------------------------------------
  // Day counts and their buckets
  // ---------------------------------------------------------------------

  /** Days from `start` to `end`; missing when either date is. */
  function DaysBetween(start: Option<int>, end: Option<int>): Option<int> {
    if start.Some? && end.Some? then Some(end.value - start.value) else None
  }

  /** Of two listings created the same day, the one available later is never in an earlier availability bucket. */
  lemma {:induction false} LaterAvailabilityLaterBucket(created: int, available1: int, available2: int)
    requires available1 <= available2
    ensures BucketRank(AvailabilityIn(DaysBetween(Some(created), Some(available1))))
         <= BucketRank(AvailabilityIn(DaysBetween(Some(created), Some(available2))))
  {
    BucketsMonotone(available1 - created, available2 - created);
  }

  /** A listing created earlier has been on the website at least as long: it is never in an earlier bucket. */
  lemma {:induction false} OlderListingLaterBucket(created1: int, created2: int, today: int)
    requires created1 <= created2
    ensures BucketRank(MonthsOnWebsite(DaysBetween(Some(created2), Some(today))))
         <= BucketRank(MonthsOnWebsite(DaysBetween(Some(created1), Some(today))))
  {
    BucketsMonotone(today - created2, today - created1);
  }

  /** A missing date leaves the day count missing, which lands in the last bucket of both scales. */
  lemma {:induction false} MissingDateLastBucket(created: Option<int>, other: Option<int>)
    requires created.None? || other.None?
    ensures AvailabilityIn(DaysBetween(created, other)) == "3+ months"
    ensures MonthsOnWebsite(DaysBetween(other, created)) == "6+ months"
  {
    AvailabilityBuckets(0);
    MonthsOnWebsiteBuckets(0);
  }

  /**
   * `availability_in` for the days from creation to availability; a
   * missing count fails both comparisons and lands in the last bucket.
   */
  function AvailabilityIn(days: Option<int>): string {
    if days.Some? && days.value < 30 then "<1 month"
    else if days.Some? && days.value < 90 then "1-3 months"
    else "3+ months"
  }

  /** `months_on_website` for the days since creation, with the same missing-count rule. */
  function MonthsOnWebsite(days: Option<int>): string {
    if days.Some? && days.value < 30 then "<1 month"
    else if days.Some? && days.value < 90 then "1-3 months"
    else if days.Some? && days.value < 180 then "3-6 months"
    else "6+ months"
  }

  /** Each availability bucket is exactly its range of days. */
  lemma {:induction false} AvailabilityBuckets(d: int)
    ensures AvailabilityIn(Some(d)) == "<1 month" <==> d < 30
    ensures AvailabilityIn(Some(d)) == "1-3 months" <==> 30 <= d < 90
    ensures AvailabilityIn(Some(d)) == "3+ months" <==> 90 <= d
    ensures AvailabilityIn(None) == "3+ months"
  {
  }

  /** Each months-on-website bucket is exactly its range of days. */
  lemma {:induction false} MonthsOnWebsiteBuckets(d: int)
    ensures MonthsOnWebsite(Some(d)) == "<1 month" <==> d < 30
    ensures MonthsOnWebsite(Some(d)) == "1-3 months" <==> 30 <= d < 90
    ensures MonthsOnWebsite(Some(d)) == "3-6 months" <==> 90 <= d < 180
    ensures MonthsOnWebsite(Some(d)) == "6+ months" <==> 180 <= d
    ensures MonthsOnWebsite(None) == "6+ months"
  {
  }

  /** The position of a bucket label in its scale, shortest first. */
  function BucketRank(bucket: string): nat {
    if bucket == "<1 month" then 0
    else if bucket == "1-3 months" then 1
    else if bucket == "3-6 months" || bucket == "3+ months" then 2
    else 3
  }

  /** More days never give an earlier bucket. */
  lemma {:induction false} BucketsMonotone(d1: int, d2: int)
    requires d1 <= d2
    ensures BucketRank(AvailabilityIn(Some(d1))) <= BucketRank(AvailabilityIn(Some(d2)))
    ensures BucketRank(MonthsOnWebsite(Some(d1))) <= BucketRank(MonthsOnWebsite(Some(d2)))
  {
  }

  /** Below 90 days the two scales put a count in the same bucket; from 90 on, availability has one bucket for what the other splits. */
  lemma {:induction false} BucketsAgreeBelowNinety(d: int)
    ensures d < 90 ==> AvailabilityIn(Some(d)) == MonthsOnWebsite(Some(d))
    ensures 90 <= d ==> AvailabilityIn(Some(d)) == "3+ months" && BucketRank(MonthsOnWebsite(Some(d))) >= 2
  {
  }
}

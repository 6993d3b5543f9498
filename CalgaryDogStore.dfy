/**
  The aggregation queries of the Calgary dog-registration store.

  The store holds one read-only table of registration records; each record
  gives the number of dogs of one breed registered in one month of one year.
  Every query below is a filter, a distinct, a sum, a group-by maximum or a
  ratio over that table. The breed a report is about is passed in as a
  parameter (the store object fixes it once and never changes it).
 */
module CalgaryDogStore {
  import opened Sequences

  type Breed = string
  type Month = string

  /** One row of the registration table. */
  datatype Record = Record(year: int, month: Month, breed: Breed, total: nat)

  type Table = seq<Record>

  /** The years for which the yearly share is reported. */
  const EvaluatedYears: seq<int> := [2021, 2022, 2023]

  // ---------------------------------------------------------------------
  // Sums over rows
  // ---------------------------------------------------------------------

  /** Sum of the Total column. */
  function SumTotal(rows: Table): nat {
    if rows == [] then 0 else rows[0].total + SumTotal(rows[1..])
  }

  /** The Total of two tables put together is the sum of their Totals. */
  lemma {:induction false} SumTotalAppend(a: Table, c: Table)
    ensures SumTotal(a + c) == SumTotal(a) + SumTotal(c)
  {
    if a == [] {
      assert a + c == c;
    } else {
      assert (a + c)[1..] == a[1..] + c;
      SumTotalAppend(a[1..], c);
    }
  }

  /** The rows of one breed. */
  function OfBreed(rows: Table, b: Breed): Table {
    Where(rows, (x: Record) => x.breed == b)
  }

  /** The rows of one year. */
  function InYear(rows: Table, y: int): Table {
    Where(rows, (x: Record) => x.year == y)
  }

  /** Summing a filtered table never exceeds summing the whole table. */
  lemma {:induction false} SumTotalWhereAtMost(rows: Table, keep: Record -> bool)
    ensures SumTotal(Where(rows, keep)) <= SumTotal(rows)
  {
    if rows != [] {
      SumTotalWhereAtMost(rows[1..], keep);
    }
  }

  // ---------------------------------------------------------------------
  // Distinct breeds and the membership check
  // ---------------------------------------------------------------------

  /** True when some row of `rows` has breed `b`. */
  predicate HasBreed(rows: Table, b: Breed) {
    exists x :: x in rows && x.breed == b
  }

  /**
    The distinct breeds of the table in order of first appearance; every
    breed of a row is listed, each once.
   */
  function Breeds(rows: Table): (r: seq<Breed>)
    ensures NoDuplicates(r)
    ensures forall b :: b in r <==> HasBreed(rows, b)
  {
    Distinct(Project(rows, (x: Record) => x.breed))
  }

  /** The membership check on the distinct breeds. */
  function IsBreedNotInData(rows: Table, b: Breed): (r: bool)
    ensures r <==> forall x :: x in rows ==> x.breed != b
  {
    b !in Breeds(rows)
  }

  /** No breed of a row is reported as missing. */
  lemma RecordBreedIsKnown(rows: Table, x: Record)
    requires x in rows
    ensures !IsBreedNotInData(rows, x.breed)
  {
  }

  // ---------------------------------------------------------------------
  // Years in which a breed appears
  // ---------------------------------------------------------------------

  /** The distinct years of the breed's rows, in order of first appearance. */
  function TopYears(rows: Table, b: Breed): (r: seq<int>)
    ensures NoDuplicates(r)
    ensures forall y :: y in r <==> exists x :: x in rows && x.breed == b && x.year == y
  {
    Distinct(Project(OfBreed(rows, b), (x: Record) => x.year))
  }

  // ---------------------------------------------------------------------
  // Total registrations of a breed
  // ---------------------------------------------------------------------

  /** Sum of Total over the breed's rows. */
  function TotalRegistration(rows: Table, b: Breed): (r: nat)
    ensures r <= SumTotal(rows)
    ensures r > 0 ==> HasBreed(rows, b)
  {
    SumTotalWhereAtMost(rows, (x: Record) => x.breed == b);
    NoBreedNoRegistrations(rows, b);
    SumTotal(OfBreed(rows, b))
  }

  /** A breed without rows has no registrations. */
  lemma {:induction false} NoBreedNoRegistrations(rows: Table, b: Breed)
    ensures !HasBreed(rows, b) ==> SumTotal(OfBreed(rows, b)) == 0
  {
    if rows != [] && !HasBreed(rows, b) {
      assert rows[0] in rows;
      assert !HasBreed(rows[1..], b) by {
        forall x | x in rows[1..] ensures x.breed != b {
          assert x in rows;
        }
      }
      NoBreedNoRegistrations(rows[1..], b);
    }
  }

  /** The registrations of each breed in `bs`, added up. */
  function SumOverBreeds(rows: Table, bs: seq<Breed>): nat {
    if bs == [] then 0 else TotalRegistration(rows, bs[0]) + SumOverBreeds(rows, bs[1..])
  }

  /** Taking the first row off removes its Total from its own breed only. */
  lemma TotalRegistrationOfCons(rows: Table, b: Breed)
    requires rows != []
    ensures TotalRegistration(rows, b)
         == (if rows[0].breed == b then rows[0].total else 0) + TotalRegistration(rows[1..], b)
  {
    if rows[0].breed == b {
      assert OfBreed(rows, b) == [rows[0]] + OfBreed(rows[1..], b);
    }
  }

  /** What one row contributes to the registrations of the breeds in `bs`. */
  function Hits(bs: seq<Breed>, x: Record): nat {
    if bs == [] then 0 else (if bs[0] == x.breed then x.total else 0) + Hits(bs[1..], x)
  }

  /** Summing over breeds, row by row. */
  lemma {:induction false} SumOverBreedsOfCons(rows: Table, bs: seq<Breed>)
    requires rows != []
    ensures SumOverBreeds(rows, bs) == Hits(bs, rows[0]) + SumOverBreeds(rows[1..], bs)
  {
    if bs != [] {
      TotalRegistrationOfCons(rows, bs[0]);
      SumOverBreedsOfCons(rows, bs[1..]);
    }
  }

  /** A row whose breed occurs once in `bs` contributes exactly its Total. */
  lemma {:induction false} HitsNoDuplicates(bs: seq<Breed>, x: Record)
    requires NoDuplicates(bs) && x.breed in bs
    ensures Hits(bs, x) == x.total
  {
    if bs[0] == x.breed {
      HitsAbsent(bs[1..], x);
    } else {
      HitsNoDuplicates(bs[1..], x);
    }
  }

  /** A row whose breed is not listed contributes nothing. */
  lemma {:induction false} HitsAbsent(bs: seq<Breed>, x: Record)
    requires x.breed !in bs
    ensures Hits(bs, x) == 0
  {
    if bs != [] {
      HitsAbsent(bs[1..], x);
    }
  }

  /**
    The registrations of the breeds of a duplicate-free list that covers
    every row's breed add up to the Total of all rows.
   */
  lemma {:induction false} SumOverCoveringBreeds(rows: Table, bs: seq<Breed>)
    requires NoDuplicates(bs)
    requires forall x :: x in rows ==> x.breed in bs
    ensures SumOverBreeds(rows, bs) == SumTotal(rows)
  {
    if rows == [] {
      ZeroOverEmpty(bs);
    } else {
      assert rows[0] in rows;
      assert forall x :: x in rows[1..] ==> x in rows;
      SumOverBreedsOfCons(rows, bs);
      HitsNoDuplicates(bs, rows[0]);
      SumOverCoveringBreeds(rows[1..], bs);
    }
  }

  /** Nothing is registered in an empty table. */
  lemma {:induction false} ZeroOverEmpty(bs: seq<Breed>)
    ensures SumOverBreeds([], bs) == 0
  {
    if bs != [] {
      ZeroOverEmpty(bs[1..]);
    }
  }

  /** The breeds' total registrations partition the grand total. */
  lemma BreedTotalsAddUpToGrandTotal(rows: Table)
    ensures SumOverBreeds(rows, Breeds(rows)) == SumTotal(rows)
  {
    SumOverCoveringBreeds(rows, Breeds(rows));
  }

  // ---------------------------------------------------------------------
  // Shares of registrations
  // ---------------------------------------------------------------------

  /** `part` as a percentage of `whole`, exactly. */
  function Percent(part: nat, whole: nat): (r: real)
    requires whole > 0
    ensures r * whole as real == (100 * part) as real
    ensures 0.0 <= r
    ensures part <= whole ==> r <= 100.0
  {
    (100 * part) as real / whole as real
  }

  /** Percentages of one whole add like their parts. */
  lemma PercentAdd(a: nat, c: nat, whole: nat)
    requires whole > 0
    ensures Percent(a, whole) + Percent(c, whole) == Percent(a + c, whole)
  {
    var w := whole as real;
    assert (100 * a) as real + (100 * c) as real == (100 * (a + c)) as real;
    DivideSum((100 * a) as real, (100 * c) as real, w);
  }

  /** Division by a positive number distributes over a sum. */
  lemma DivideSum(x: real, y: real, w: real)
    requires w > 0.0
    ensures x / w + y / w == (x + y) / w
  {
  }

  /** A positive factor can be cancelled from both sides. */
  lemma CancelFactor(x: real, y: real, w: real)
    requires w > 0.0 && x * w == y * w
    ensures x == y
  {
    assert (x - y) * w == x * w - y * w;
  }

  /** The whole is 100 percent of itself, and nothing is 0 percent. */
  lemma PercentExtremes(part: nat, whole: nat)
    requires whole > 0
    ensures Percent(part, whole) == 100.0 <==> part == whole
    ensures Percent(part, whole) == 0.0 <==> part == 0
  {
    var w := whole as real;
    var r := Percent(part, whole);
    if r == 100.0 {
      assert 100.0 * w == (100 * part) as real;
    }
    if part == whole {
      assert r * w == (100 * part) as real == 100.0 * w;
      CancelFactor(r, 100.0, w);
    }
    if part == 0 {
      CancelFactor(r, 0.0, w);
    }
  }

  /** A breed's registrations as a percentage of all registrations of `rows`. */
  function Share(rows: Table, b: Breed): (r: real)
    requires SumTotal(rows) > 0
    ensures 0.0 <= r <= 100.0
    ensures r == 0.0 <==> TotalRegistration(rows, b) == 0
    ensures r == 100.0 <==> TotalRegistration(rows, b) == SumTotal(rows)
  {
    PercentExtremes(TotalRegistration(rows, b), SumTotal(rows));
    Percent(TotalRegistration(rows, b), SumTotal(rows))
  }

  /** The shares of the breeds in `bs`, added up. */
  function SumOfShares(rows: Table, bs: seq<Breed>): real
    requires SumTotal(rows) > 0
  {
    if bs == [] then 0.0 else Share(rows, bs[0]) + SumOfShares(rows, bs[1..])
  }

  /** The summed shares are the share of the summed registrations. */
  lemma {:induction false} SumOfSharesIsPercentOfSum(rows: Table, bs: seq<Breed>)
    requires SumTotal(rows) > 0
    ensures SumOfShares(rows, bs) == Percent(SumOverBreeds(rows, bs), SumTotal(rows))
  {
    var whole := SumTotal(rows);
    if bs == [] {
      PercentExtremes(0, whole);
    } else {
      var first, rest := TotalRegistration(rows, bs[0]), SumOverBreeds(rows, bs[1..]);
      SumOfSharesIsPercentOfSum(rows, bs[1..]);
      PercentAdd(first, rest, whole);
      assert SumOverBreeds(rows, bs) == first + rest;
      assert Share(rows, bs[0]) == Percent(first, whole);
    }
  }

  /**
    The shares of a duplicate-free list of breeds that covers every row's
    breed add up to 100 percent.
   */
  lemma SharesOfCoveringBreedsAddUpTo100(rows: Table, bs: seq<Breed>)
    requires SumTotal(rows) > 0
    requires NoDuplicates(bs)
    requires forall x :: x in rows ==> x.breed in bs
    ensures SumOfShares(rows, bs) == 100.0
  {
    SumOfSharesIsPercentOfSum(rows, bs);
    SumOverCoveringBreeds(rows, bs);
    PercentExtremes(SumTotal(rows), SumTotal(rows));
  }

  /** Sum of Total over the rows of year `y`. */
  function YearTotal(rows: Table, y: int): nat {
    SumTotal(InYear(rows, y))
  }

  /**
    For each evaluated year, the year and the breed's share of that year's
    registrations.
   */
  function YearlyPercRegistration(rows: Table, b: Breed): (r: seq<(int, real)>)
    requires forall i :: 0 <= i < |EvaluatedYears| ==> YearTotal(rows, EvaluatedYears[i]) > 0
    ensures |r| == |EvaluatedYears|
    ensures forall i :: 0 <= i < |r| ==>
      var y := EvaluatedYears[i];
      && r[i].0 == y
      && YearTotal(rows, y) > 0
      && r[i].1 == Percent(TotalRegistration(InYear(rows, y), b), YearTotal(rows, y))
      && 0.0 <= r[i].1 <= 100.0
  {
    seq(|EvaluatedYears|, i requires 0 <= i < |EvaluatedYears| =>
      var y := EvaluatedYears[i];
      assert YearTotal(rows, y) > 0;
      (y, Share(InYear(rows, y), b)))
  }

  /**
    For a year with registrations, the shares of all distinct breeds of the
    table in that year add up to 100 percent.
   */
  lemma YearSharesAddUpTo100(rows: Table, y: int)
    requires YearTotal(rows, y) > 0
    ensures SumOfShares(InYear(rows, y), Breeds(rows)) == 100.0
  {
    forall x | x in InYear(rows, y) ensures x.breed in Breeds(rows) {
      assert HasBreed(rows, x.breed);
    }
    SharesOfCoveringBreedsAddUpTo100(InYear(rows, y), Breeds(rows));
  }

  /** The distinct years of the table. */
  function Years(rows: Table): (r: seq<int>)
    ensures NoDuplicates(r)
    ensures forall y :: y in r <==> exists x :: x in rows && x.year == y
  {
    Distinct(Project(rows, (x: Record) => x.year))
  }

  /**
    The rows whose year is one of the table's distinct years. Every row's
    year is one of them, so no row is dropped.
   */
  function AllYearData(rows: Table): (r: Table)
    ensures r == rows
  {
    WhereAll(rows, (x: Record) => x.year in Years(rows));
    Where(rows, (x: Record) => x.year in Years(rows))
  }

  /** The breed's share of all registrations in the table. */
  function TotalPercRegistration(rows: Table, b: Breed): (r: real)
    requires SumTotal(rows) > 0
    ensures r == Percent(TotalRegistration(rows, b), SumTotal(rows))
    ensures 0.0 <= r <= 100.0
  {
    Share(AllYearData(rows), b)
  }

  /** The overall shares of all distinct breeds add up to 100 percent. */
  lemma TotalSharesAddUpTo100(rows: Table)
    requires SumTotal(rows) > 0
    ensures SumOfShares(rows, Breeds(rows)) == 100.0
  {
    SharesOfCoveringBreedsAddUpTo100(rows, Breeds(rows));
  }

  // ---------------------------------------------------------------------
  // Popular months
  // ---------------------------------------------------------------------

  /** The rows of one month. */
  function InMonth(rows: Table, m: Month): Table {
    Where(rows, (x: Record) => x.month == m)
  }

  /** The largest total registration among the breeds in `bs`. */
  function MaxRegistration(rows: Table, bs: seq<Breed>): (r: nat)
    ensures forall b :: b in bs ==> TotalRegistration(rows, b) <= r
    ensures bs != [] ==> exists b :: b in bs && TotalRegistration(rows, b) == r
  {
    if bs == [] then 0
    else
      var rest := MaxRegistration(rows, bs[1..]);
      var here := TotalRegistration(rows, bs[0]);
      if rest <= here then here else rest
  }

  /**
    The largest summed Total of any (month `m`, breed) group: no group of
    the month exceeds it and, when the month has rows, some group attains it.
   */
  function MonthMax(rows: Table, m: Month): (r: nat)
    ensures forall b :: HasBreed(InMonth(rows, m), b) ==> TotalRegistration(InMonth(rows, m), b) <= r
    ensures InMonth(rows, m) != [] ==>
      exists b :: HasBreed(InMonth(rows, m), b) && TotalRegistration(InMonth(rows, m), b) == r
  {
    var group := InMonth(rows, m);
    var bs := Breeds(group);
    assert group != [] ==> group[0] in group && HasBreed(group, group[0].breed) && bs != [];
    MaxRegistration(group, bs)
  }

  /** True when breed `b` has a row in month `m`. */
  predicate HasGroup(rows: Table, m: Month, b: Breed) {
    exists x :: x in rows && x.month == m && x.breed == b
  }

  /** A breed has a group in a month exactly when it has rows in it. */
  lemma HasGroupInMonth(rows: Table, m: Month, b: Breed)
    ensures HasGroup(rows, m, b) <==> HasBreed(InMonth(rows, m), b)
  {
    if HasGroup(rows, m, b) {
      var x :| x in rows && x.month == m && x.breed == b;
      assert x in InMonth(rows, m);
    }
  }

  /**
    The months in which the breed's summed Total equals the month's largest
    summed Total over all breeds: exactly the months in which the breed has
    rows and no breed's summed Total is larger than the breed's.
   */
  function PopularMonths(rows: Table, b: Breed): (r: set<Month>)
    ensures forall m :: m in r <==>
      && HasGroup(rows, m, b)
      && forall b' :: HasGroup(rows, m, b') ==>
           TotalRegistration(InMonth(rows, m), b') <= TotalRegistration(InMonth(rows, m), b)
  {
    var r := set x | x in rows && x.breed == b && TotalRegistration(InMonth(rows, x.month), b) == MonthMax(rows, x.month)
      :: x.month;
    assert forall m :: m in r <==>
      && HasGroup(rows, m, b)
      && forall b' :: HasGroup(rows, m, b') ==>
           TotalRegistration(InMonth(rows, m), b') <= TotalRegistration(InMonth(rows, m), b)
    by {
      forall m ensures m in r <==>
        && HasGroup(rows, m, b)
        && forall b' :: HasGroup(rows, m, b') ==>
             TotalRegistration(InMonth(rows, m), b') <= TotalRegistration(InMonth(rows, m), b)
      {
        var group := InMonth(rows, m);
        var mine := TotalRegistration(group, b);
        if m in r {
          var x :| x in rows && x.breed == b && x.month == m
            && TotalRegistration(InMonth(rows, x.month), b) == MonthMax(rows, x.month);
          forall b' | HasGroup(rows, m, b') ensures TotalRegistration(group, b') <= mine {
            HasGroupInMonth(rows, m, b');
          }
        }
        if HasGroup(rows, m, b) && forall b' :: HasGroup(rows, m, b') ==> TotalRegistration(group, b') <= mine {
          var x :| x in rows && x.month == m && x.breed == b;
          assert x in group;
          var top :| HasBreed(group, top) && TotalRegistration(group, top) == MonthMax(rows, m);
          HasGroupInMonth(rows, m, top);
          HasGroupInMonth(rows, m, b);
          assert mine == MonthMax(rows, m);
          assert x.month in r;
        }
      }
    }
    r
  }

  /** Every month of the table is reported for at least one breed. */
  lemma EveryMonthHasATopBreed(rows: Table, x: Record)
    requires x in rows
    ensures exists b :: x.month in PopularMonths(rows, b)
  {
    var m := x.month;
    var group := InMonth(rows, m);
    assert x in group && group != [];
    var mx := MonthMax(rows, m);
    assert exists b :: HasBreed(InMonth(rows, m), b) && TotalRegistration(InMonth(rows, m), b) == mx;
    var top :| HasBreed(group, top) && TotalRegistration(group, top) == MonthMax(rows, m);
    var y :| y in group && y.breed == top;
    assert y in rows && y.month == x.month;
    assert x.month in PopularMonths(rows, top);
  }

  /** Two breeds reported for the same month tie on that month's sum. */
  lemma TopBreedsTie(rows: Table, m: Month, b1: Breed, b2: Breed)
    requires m in PopularMonths(rows, b1) && m in PopularMonths(rows, b2)
    ensures TotalRegistration(InMonth(rows, m), b1) == TotalRegistration(InMonth(rows, m), b2)
  {
  }

  // ---------------------------------------------------------------------
  // The breed list shown at the first prompt
  // ---------------------------------------------------------------------

  /** Number of breed names per line of the breed list. */
  const RowWidth: nat := 10

  /** The breeds laid out as consecutive rows of `RowWidth` names. */
  function Reshape(bs: seq<Breed>): (r: seq<seq<Breed>>)
    requires |bs| % RowWidth == 0
    ensures |r| == |bs| / RowWidth
    ensures forall k :: 0 <= k < |r| ==> |r[k]| == RowWidth
    ensures forall k, j :: 0 <= k < |r| && 0 <= j < RowWidth ==> r[k][j] == bs[RowWidth * k + j]
  {
    seq(|bs| / RowWidth, k requires 0 <= k < |bs| / RowWidth => bs[RowWidth * k .. RowWidth * k + RowWidth])
  }

  /** Each row's names joined by ", ". */
  function RowLines(bs: seq<Breed>): (r: seq<string>)
    requires |bs| % RowWidth == 0
    ensures |r| == |bs| / RowWidth
    ensures forall k :: 0 <= k < |r| ==> r[k] == Join(", ", bs[RowWidth * k .. RowWidth * k + RowWidth])
  {
    var rows := Reshape(bs);
    seq(|rows|, k requires 0 <= k < |rows| => Join(", ", rows[k]))
  }

  /**
    The rows of the table's breed list joined by ",\n": every distinct breed
    once, in order, each followed by ",\n" when it ends a row of ten and by
    ", " otherwise, with nothing after the last.
   */
  function BreedsHelp(rows: Table): (r: string)
    requires |Breeds(rows)| % RowWidth == 0
    ensures r == Layout(Breeds(rows), 0)
  {
    RowLinesJoinIsLayout(Breeds(rows));
    Join(",\n", RowLines(Breeds(rows)))
  }

  /**
    What follows the name at position `i`: nothing after the last name,
    ",\n" after a name that ends a row, ", " otherwise.
   */
  function Delimiter(n: nat, i: nat): string {
    if i + 1 == n then "" else if (i + 1) % RowWidth == 0 then ",\n" else ", "
  }

  /** Reference layout: each name from position `i` on, followed by its delimiter. */
  function Layout(bs: seq<Breed>, i: nat): string
    decreases |bs| - i
  {
    if i >= |bs| then "" else bs[i] + Delimiter(|bs|, i) + Layout(bs, i + 1)
  }

  /**
    From position `RowWidth * k + j` to the end of row `k`, the layout is
    the rest of that row joined by ", ", then ",\n" and the following rows
    unless row `k` is the last.
   */
  lemma {:induction false} LayoutOfRowTail(bs: seq<Breed>, k: nat, j: nat)
    requires |bs| % RowWidth == 0
    requires RowWidth * k + RowWidth <= |bs| && j < RowWidth
    ensures Layout(bs, RowWidth * k + j)
         == Join(", ", bs[RowWidth * k + j .. RowWidth * k + RowWidth])
          + (if RowWidth * k + RowWidth == |bs| then "" else ",\n" + Layout(bs, RowWidth * k + RowWidth))
    decreases RowWidth - j
  {
    var i := RowWidth * k + j;
    var end := RowWidth * k + RowWidth;
    assert (i + 1) % RowWidth == 0 <==> j == RowWidth - 1;
    if j == RowWidth - 1 {
      assert bs[i .. end] == [bs[i]];
    } else {
      assert i + 1 != |bs|;
      LayoutOfRowTail(bs, k, j + 1);
      assert bs[i .. end][1..] == bs[i + 1 .. end];
    }
  }

  /** From the start of row `k`, the layout is rows `k..` joined by ",\n". */
  lemma {:induction false} LayoutOfRows(bs: seq<Breed>, k: nat)
    requires |bs| % RowWidth == 0
    requires k < |bs| / RowWidth
    ensures Layout(bs, RowWidth * k) == Join(",\n", RowLines(bs)[k..])
    decreases |bs| / RowWidth - k
  {
    var lines := RowLines(bs);
    var start, end := RowWidth * k, RowWidth * k + RowWidth;
    LayoutOfRowTail(bs, k, 0);
    assert Layout(bs, start) == lines[k] + (if end == |bs| then "" else ",\n" + Layout(bs, end));
    JoinFrom(",\n", lines, k);
    if k + 1 < |bs| / RowWidth {
      assert RowWidth * (k + 1) == end;
      LayoutOfRows(bs, k + 1);
    } else {
      assert end == |bs|;
    }
  }

  /** The rows joined by ",\n" are the reference layout of the names. */
  lemma RowLinesJoinIsLayout(bs: seq<Breed>)
    requires |bs| % RowWidth == 0
    ensures Join(",\n", RowLines(bs)) == Layout(bs, 0)
  {
    if bs != [] {
      LayoutOfRows(bs, 0);
      assert RowLines(bs)[0..] == RowLines(bs);
    }
  }
}

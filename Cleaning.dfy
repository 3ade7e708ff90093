/** The schema check and the cleaning filter: required columns, dropping of
    missing and implausible surfaces and values, and the derived price per m². */
module Cleaning {
  import opened Wrappers
  import opened Seqs
  import opened Sales

  const RequiredColumns: set<string> := {ValueColumn, SurfaceColumn}

  /** Plausibility bounds, all exclusive. */
  const MinSurface: real := 8.0
  const MaxSurface: real := 5000.0
  const MinValue: real := 1000.0
  const MaxValue: real := 50000000.0

  /** The schema check: passes when both required columns are present and
      otherwise reports exactly the required columns that are absent. */
  function CheckColumns(columns: set<string>): (r: Outcome<set<string>>)
    ensures r.Pass? <==> RequiredColumns <= columns
    ensures r.Fail? ==> r.error != {}
    ensures r.Fail? ==> forall c :: c in r.error <==> c in RequiredColumns && c !in columns
  {
    if RequiredColumns <= columns then Pass
    else
      assert ValueColumn !in columns || SurfaceColumn !in columns;
      Fail(RequiredColumns - columns)
  }

  /** A table with the surface column but not the value column is rejected,
      and the error names the value column alone. */
  lemma MissingValueColumnIsReported(columns: set<string>)
    requires SurfaceColumn in columns && ValueColumn !in columns
    ensures CheckColumns(columns) == Fail({ValueColumn})
  {
    assert RequiredColumns - columns == {ValueColumn};
  }

  predicate HasSurface(r: Sale) { r.surface.Some? }

  predicate HasValue(r: Sale) { r.value.Some? }

  /** The range filter. A comparison with a null cell is false, so a row with
      a missing surface or value is never in range. */
  function InRange(r: Sale): (b: bool)
    ensures b <==> (HasSurface(r) && HasValue(r)
      && MinSurface < r.surface.value < MaxSurface && MinValue < r.value.value < MaxValue)
  {
    match (r.surface, r.value)
    case (Some(s), Some(v)) => MinSurface < s < MaxSurface && MinValue < v < MaxValue
    case _ => false
  }

  /** value / surface, with null for a missing operand and for a division by
      zero (whose infinite or undefined result the cleaner turns into null). */
  function Ratio(value: Option<real>, surface: Option<real>): (r: Option<real>)
    ensures r.Some? <==> value.Some? && surface.Some? && surface.value != 0.0
    ensures r.Some? ==> r.value * surface.value == value.value
  {
    match (value, surface)
    case (Some(v), Some(s)) => if s == 0.0 then None else Some(v / s)
    case _ => None
  }

  /** The row with its `prix_m2` cell (re)computed; nothing else changes. */
  function WithPrice(r: Sale): Sale
  {
    r.(prixM2 := Ratio(r.value, r.surface))
  }

  predicate HasPrice(r: Sale) { r.prixM2.Some? }

  /** The cleaned table, stage by stage: drop null surfaces, drop null values,
      keep plausible rows, add the price column, drop null prices. */
  function Cleaned(rows: seq<Sale>): (cleaned: seq<Sale>)
    ensures |cleaned| <= |rows|
    ensures forall i :: 0 <= i < |cleaned| ==> InRange(cleaned[i]) && HasPrice(cleaned[i])
  {
    var present := Filter(Filter(rows, HasSurface), HasValue);
    Filter(Map(Filter(present, InRange), WithPrice), HasPrice)
  }

  /** One row filter `df[mask]`: the rows satisfying `keep`, order kept. */
  method KeepRows(rows: seq<Sale>, keep: Sale -> bool) returns (kept: seq<Sale>)
    ensures kept == Filter(rows, keep)
  {
    kept := [];
    for i := 0 to |rows|
      invariant kept == Filter(rows[..i], keep)
    {
      FilterSnoc(rows[..i], rows[i], keep);
      assert rows[..i + 1] == rows[..i] + [rows[i]];
      if keep(rows[i]) {
        kept := kept + [rows[i]];
      }
    }
    assert rows[..|rows|] == rows;
  }

  /** Adds the `prix_m2` column to every row. */
  method AddPriceColumn(rows: seq<Sale>) returns (priced: seq<Sale>)
    ensures priced == Map(rows, WithPrice)
  {
    priced := [];
    for i := 0 to |rows|
      invariant priced == Map(rows[..i], WithPrice)
    {
      MapSnoc(rows[..i], rows[i], WithPrice);
      assert rows[..i + 1] == rows[..i] + [rows[i]];
      priced := priced + [WithPrice(rows[i])];
    }
    assert rows[..|rows|] == rows;
  }

  /** The cleaning stage, reassigning the working table step by step. */
  method Clean(rows: seq<Sale>) returns (cleaned: seq<Sale>)
    ensures cleaned == Cleaned(rows)
  {
    var table := KeepRows(rows, HasSurface);
    table := KeepRows(table, HasValue);
    table := KeepRows(table, InRange);
    table := AddPriceColumn(table);
    cleaned := KeepRows(table, HasPrice);
  }

  /** Schema check followed by cleaning: fails with the missing required
      columns, or yields the cleaned table, which gains the `prix_m2` column. */
  method CleanFrame(df: Frame) returns (result: Result<Frame, set<string>>)
    ensures !(RequiredColumns <= df.columns) ==>
      result == Failure(RequiredColumns - df.columns)
    ensures RequiredColumns <= df.columns ==>
      result == Success(Frame(df.columns + {PriceColumn}, Cleaned(df.rows)))
  {
    var check := CheckColumns(df.columns);
    if check.Fail? {
      return Failure(check.error);
    }
    var rows := Clean(df.rows);
    result := Success(Frame(df.columns + {PriceColumn}, rows));
  }

  /** On a plausible row the ratio is always defined, so the last drop of
      null prices removes nothing. */
  lemma PriceDropRemovesNothing(rows: seq<Sale>)
    ensures var priced := Map(Filter(Filter(Filter(rows, HasSurface), HasValue), InRange), WithPrice);
            Filter(priced, HasPrice) == priced
  {
    var kept := Filter(Filter(Filter(rows, HasSurface), HasValue), InRange);
    var priced := Map(kept, WithPrice);
    forall r | r in priced ensures HasPrice(r) {
      var i :| 0 <= i < |priced| && priced[i] == r;
      assert InRange(kept[i]);
    }
    FilterKeepsAll(priced, HasPrice);
  }

  /** The cleaner is a single filter by `InRange` followed by the price column. */
  lemma CleanedIsOnePass(rows: seq<Sale>)
    ensures Cleaned(rows) == Map(Filter(rows, InRange), WithPrice)
  {
    PriceDropRemovesNothing(rows);
    var withSurface := Filter(rows, HasSurface);
    FilterOfWeakerFilter(withSurface, HasValue, InRange);
    FilterOfWeakerFilter(rows, HasSurface, InRange);
  }

  /** Every cleaned row has a surface and a value, both strictly within the
      bounds, and its price per m² is exactly value / surface. */
  lemma CleanedRowsAreValid(rows: seq<Sale>)
    ensures forall r :: r in Cleaned(rows) ==>
      && r.surface.Some? && r.value.Some?
      && MinSurface < r.surface.value < MaxSurface
      && MinValue < r.value.value < MaxValue
      && r.prixM2 == Some(r.value.value / r.surface.value)
  {
    CleanedIsOnePass(rows);
    var kept := Filter(rows, InRange);
    forall r | r in Cleaned(rows)
      ensures r.surface.Some? && r.value.Some?
      ensures MinSurface < r.surface.value < MaxSurface && MinValue < r.value.value < MaxValue
      ensures r.prixM2 == Some(r.value.value / r.surface.value)
    {
      var i :| 0 <= i < |kept| && Cleaned(rows)[i] == r;
      assert InRange(kept[i]);
    }
  }

  /** The cleaned rows are the plausible input rows, in their input order,
      each with its cells unchanged apart from the new `prix_m2`. */
  lemma CleanedRowsComeFromInput(rows: seq<Sale>)
    ensures var kept := Filter(rows, InRange);
      && IsSubsequence(kept, rows)
      && |Cleaned(rows)| == |kept|
      && forall i :: 0 <= i < |kept| ==>
           Cleaned(rows)[i] == kept[i].(prixM2 := Some(kept[i].value.value / kept[i].surface.value))
  {
    CleanedIsOnePass(rows);
    FilterIsSubsequence(rows, InRange);
    var kept := Filter(rows, InRange);
    forall i | 0 <= i < |kept|
      ensures Cleaned(rows)[i] == kept[i].(prixM2 := Some(kept[i].value.value / kept[i].surface.value))
    {
      assert InRange(kept[i]);
    }
  }

  /** Row `i` is priced into the one-pass result exactly when it is in range. */
  lemma RowSurvivesIffInRange(rows: seq<Sale>, i: nat)
    requires i < |rows|
    ensures WithPrice(rows[i]) in Map(Filter(rows, InRange), WithPrice) <==> InRange(rows[i])
  {
    var kept := Filter(rows, InRange);
    var priced := Map(kept, WithPrice);
    if InRange(rows[i]) {
      assert rows[i] in kept;
      var k :| 0 <= k < |kept| && kept[k] == rows[i];
      assert priced[k] == WithPrice(rows[i]);
    }
    if WithPrice(rows[i]) in priced {
      var k :| 0 <= k < |priced| && priced[k] == WithPrice(rows[i]);
      assert WithPrice(kept[k]) == WithPrice(rows[i]);
      assert InRange(kept[k]);
    }
  }

  /** An input row survives cleaning exactly when its surface and value are
      both present and strictly within the bounds. */
  lemma SurvivesIffInRange(rows: seq<Sale>)
    ensures forall i :: 0 <= i < |rows| ==> (WithPrice(rows[i]) in Cleaned(rows) <==> InRange(rows[i]))
  {
    CleanedIsOnePass(rows);
    forall i | 0 <= i < |rows| ensures WithPrice(rows[i]) in Cleaned(rows) <==> InRange(rows[i]) {
      RowSurvivesIffInRange(rows, i);
    }
  }

  /** A cleaned row is in range and already carries its price. */
  lemma CleanedRowIsFixed(rows: seq<Sale>, r: Sale)
    requires r in Cleaned(rows)
    ensures InRange(r) && WithPrice(r) == r
  {
    CleanedRowsAreValid(rows);
  }

  /** Cleaning an already cleaned table gives it back unchanged. */
  lemma CleanedIdempotent(rows: seq<Sale>)
    ensures Cleaned(Cleaned(rows)) == Cleaned(rows)
  {
    var c := Cleaned(rows);
    forall r | r in c ensures InRange(r) && WithPrice(r) == r {
      CleanedRowIsFixed(rows, r);
    }
    FilterKeepsAll(c, InRange);
    MapKeepsFixedPoints(c, WithPrice);
    CleanedIsOnePass(c);
  }

  /** A row on a bound is dropped: the bounds are exclusive. */
  lemma BoundsAreExclusive(r: Sale)
    requires r.surface == Some(MinSurface) || r.surface == Some(MaxSurface)
          || r.value == Some(MinValue) || r.value == Some(MaxValue)
    ensures Cleaned([r]) == []
  {
    CleanedIsOnePass([r]);
  }

  /** Of a small surface and plausible value, a huge surface, and a too small
      value, only the first row survives, priced at 5000 per m². */
  lemma ThreeRowExample(typeLocal: Option<string>, commune: Option<string>)
    ensures var rows := [
        Sale(Some(10.0), Some(50000.0), typeLocal, commune, None),
        Sale(Some(10000.0), Some(50000.0), typeLocal, commune, None),
        Sale(Some(10.0), Some(500.0), typeLocal, commune, None)];
      Cleaned(rows) == [Sale(Some(10.0), Some(50000.0), typeLocal, commune, Some(5000.0))]
  {
    var rows := [
        Sale(Some(10.0), Some(50000.0), typeLocal, commune, None),
        Sale(Some(10000.0), Some(50000.0), typeLocal, commune, None),
        Sale(Some(10.0), Some(500.0), typeLocal, commune, None)];
    CleanedIsOnePass(rows);
    assert Filter(rows, InRange) == [rows[0]];
  }
}

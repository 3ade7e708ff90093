/** The data behind the charts drawn from the cleaned table: the number of
    sales per property type, the ranked communes, and the scatter sample size. */
module Charts {
  import opened Wrappers
  import opened Seqs
  import opened Sales
  import opened Cleaning
  import opened Communes

  /** Largest number of rows drawn for the surface/value scatter plot. */
  const MaxSample: nat := 20000

  /** The test "the row has property type `t`", as a value. */
  function OfType(t: string): Sale -> bool { (r: Sale) => r.typeLocal == Some(t) }

  /** `value_counts` of the non-null `type_local` cells: each property type
      that occurs, with its number of rows. */
  function TypeCounts(rows: seq<Sale>): (counts: map<string, nat>)
    ensures forall t :: t in counts <==> Count(rows, OfType(t)) > 0
    ensures forall t :: t in counts ==> counts[t] == Count(rows, OfType(t))
  {
    if rows == [] then map[]
    else
      var rest := TypeCounts(rows[1..]);
      CountOfTypeStep(rows);
      match rows[0].typeLocal
      case None => rest
      case Some(t) => rest[t := (if t in rest then rest[t] else 0) + 1]
  }

  /** Counting a type over rows counts the first row, then the rest. */
  lemma CountOfTypeStep(rows: seq<Sale>)
    requires rows != []
    ensures forall t :: Count(rows, OfType(t))
                      == (if rows[0].typeLocal == Some(t) then 1 else 0) + Count(rows[1..], OfType(t))
  {
  }

  /** Number of rows in the scatter sample: the whole table, capped at 20000. */
  function SampleSize(rows: nat): (k: nat)
    ensures k <= rows && k <= MaxSample
    ensures k == rows || k == MaxSample
  {
    if rows < MaxSample then rows else MaxSample
  }

  /** On the cleaned table every ranked commune's `nb` is its number of
      cleaned sales. */
  lemma RankingOfCleanedCountsSales(rows: seq<Sale>)
    ensures var cleaned := Cleaned(rows);
      forall st :: st in TopCommunes(cleaned) ==> st.nb == Count(cleaned, InCommune(st.commune))
  {
    CleanedRowsAreValid(rows);
    TopCommunesCountSales(Cleaned(rows));
  }
}

/** The transaction records of the land-value (DVF) dataset, as far as the
    cleaning and aggregation pipeline looks at them. */
module Sales {
  import opened Wrappers

  /** Column names of the dataset. */
  const ValueColumn: string := "valeur_fonciere"
  const SurfaceColumn: string := "surface_reelle_bati"
  const PriceColumn: string := "prix_m2"

  /** One row of the table. Every cell may be null (`None`). The other columns
      of the dataset are not represented. `prixM2` is the derived price per
      square metre. */
  datatype Sale = Sale(
    surface: Option<real>,      // surface_reelle_bati, in m²
    value: Option<real>,        // valeur_fonciere, in euros
    typeLocal: Option<string>,  // type_local: house, flat, premises, ...
    commune: Option<string>,    // commune
    prixM2: Option<real>)       // prix_m2, euros per m²

  /** A table: its set of column names and its rows, in order. */
  datatype Frame = Frame(columns: set<string>, rows: seq<Sale>)
}

/** The experiment-design table (E-GEOD-52194-experiment-design.tsv) that both the
    SQL generator and the differential-analysis script filter. */
module ExperimentDesign {
  import opened Wrappers

  /** One row of the design table, with the columns the pipeline reads. The
      Analysed cell may be missing (NaN). */
  datatype DesignRow = DesignRow(
    run: string,
    analysed: Option<string>,
    characteristicClinical: string,
    characteristicDisease: string,
    factorClinical: string)

  /** df['Analysed'] != 'No': a missing cell compares unequal to 'No', so its
      row is kept as well. */
  predicate IsAnalysed(r: DesignRow)
  {
    r.analysed != Some("No")
  }
}

/** run_deseq_analysis.py before and after the call into pydeseq2: the count
    table is filtered, split into counts and gene names and transposed; the
    design table is filtered, projected and renamed; both are sorted by sample
    ID; the result tables of each comparison get a Gene_Name column. The
    statistics themselves (pydeseq2) are given as input records. */
module DeseqPrep {
  import opened Wrappers
  import opened Seqs
  import opened ExperimentDesign

  // ---------------------------------------------------------------------------
  // The raw-counts table

  /** A row of E-GEOD-52194-raw-counts.tsv indexed by Gene ID: the Gene Name
      cell (None where pandas reads NaN) and one count per sample column. */
  datatype CountRow = CountRow(geneId: string, geneName: Option<string>, counts: seq<int>)

  function Sum(xs: seq<int>): int
  {
    if xs == [] then 0 else xs[0] + Sum(xs[1..])
  }

  /** A sum of counts none of which is negative is positive exactly when some
      count is. */
  lemma {:induction false} SumPositive(xs: seq<int>)
    requires forall i :: 0 <= i < |xs| ==> xs[i] >= 0
    ensures Sum(xs) >= 0
    ensures Sum(xs) > 0 <==> exists i :: 0 <= i < |xs| && xs[i] > 0
  {
    if xs != [] {
      SumPositive(xs[1..]);
      if exists i :: 0 <= i < |xs[1..]| && xs[1..][i] > 0 {
        var i :| 0 <= i < |xs[1..]| && xs[1..][i] > 0;
        assert xs[i + 1] > 0;
      }
      if exists i :: 0 <= i < |xs| && xs[i] > 0 {
        var i :| 0 <= i < |xs| && xs[i] > 0;
        if i > 0 { assert xs[1..][i - 1] > 0; }
      }
    }
  }

  /** raw_counts.sum(axis=1) > 0, summed over the sample columns. */
  predicate HasPositiveSum(r: CountRow)
  {
    Sum(r.counts) > 0
  }

  /** raw_counts_filter["Gene Name"].notna(). */
  predicate HasName(r: CountRow)
  {
    r.geneName.Some?
  }

  predicate KeepGene(r: CountRow)
  {
    HasPositiveSum(r) && HasName(r)
  }

  /** raw_counts_final: the rows with a positive sum, then of those the rows with
      a name. */
  function FilterGenes(rows: seq<CountRow>): seq<CountRow>
  {
    Filter(Filter(rows, HasPositiveSum), HasName)
  }

  /** The two filters in a row are the one filter on both conditions. */
  lemma {:induction false} FilterGenesOnce(rows: seq<CountRow>)
    ensures FilterGenes(rows) == Filter(rows, KeepGene)
  {
    if rows != [] {
      FilterGenesOnce(rows[1..]);
      var head := if HasPositiveSum(rows[0]) then [rows[0]] else [];
      FilterConcat(head, Filter(rows[1..], HasPositiveSum), HasName);
      if HasPositiveSum(rows[0]) {
        assert head[1..] == [];
      }
    }
  }

  /** A row is kept exactly when its counts sum to more than zero and it has a
      gene name. */
  lemma KeptGenes(rows: seq<CountRow>)
    ensures forall r :: r in FilterGenes(rows) <==> r in rows && KeepGene(r)
  {
    FilterGenesOnce(rows);
  }

  /** The filters keep relative order: what they keep of a comes before what
      they keep of b. */
  lemma FilterGenesConcat(a: seq<CountRow>, b: seq<CountRow>)
    ensures FilterGenes(a + b) == FilterGenes(a) + FilterGenes(b)
  {
    FilterGenesOnce(a);
    FilterGenesOnce(b);
    FilterGenesOnce(a + b);
    FilterConcat(a, b, KeepGene);
  }

  // ---------------------------------------------------------------------------
  // gene_names and counts_numeric

  /** A row of counts_numeric: the table without its Gene Name column. */
  datatype NumericRow = NumericRow(geneId: string, counts: seq<int>)

  function DropName(r: CountRow): NumericRow
  {
    NumericRow(r.geneId, r.counts)
  }

  function NameEntry(r: CountRow): (string, Option<string>)
  {
    (r.geneId, r.geneName)
  }

  function CountsNumeric(rows: seq<CountRow>): seq<NumericRow>
  {
    MapSeq(rows, DropName)
  }

  /** The gene_names series: Gene ID to Gene Name, in row order. */
  function GeneNames(rows: seq<CountRow>): seq<(string, Option<string>)>
  {
    MapSeq(rows, NameEntry)
  }

  /** Putting the Gene Name column back next to the counts. */
  function Rejoin(numeric: seq<NumericRow>, names: seq<(string, Option<string>)>): seq<CountRow>
    requires |numeric| == |names|
  {
    seq(|numeric|, i requires 0 <= i < |numeric| => CountRow(numeric[i].geneId, names[i].1, numeric[i].counts))
  }

  /** Splitting off the names loses nothing: both parts are indexed by the same
      Gene IDs in the same order, every name of the kept rows is present, and
      rejoining them gives raw_counts_final back. */
  lemma SplitNames(rows: seq<CountRow>)
    ensures var kept := FilterGenes(rows);
      && |CountsNumeric(kept)| == |GeneNames(kept)| == |kept|
      && (forall i :: 0 <= i < |kept| ==>
            CountsNumeric(kept)[i].geneId == GeneNames(kept)[i].0 && GeneNames(kept)[i].1.Some?)
      && Rejoin(CountsNumeric(kept), GeneNames(kept)) == kept
  {
    var kept := FilterGenes(rows);
    assert forall i :: 0 <= i < |kept| ==> HasName(kept[i]);
  }

  /** gene_names.to_dict(): a later entry for the same Gene ID replaces an
      earlier one. */
  function ToDict(pairs: seq<(string, Option<string>)>): map<string, Option<string>>
  {
    if pairs == [] then map[]
    else ToDict(pairs[..|pairs| - 1])[pairs[|pairs| - 1].0 := pairs[|pairs| - 1].1]
  }

  /** The dictionary holds exactly the IDs of the series, each with the value of
      its last entry. */
  lemma {:induction false} ToDictLookup(pairs: seq<(string, Option<string>)>, k: string)
    ensures k in ToDict(pairs) <==> exists i :: 0 <= i < |pairs| && pairs[i].0 == k
    ensures k in ToDict(pairs) ==>
      exists i :: 0 <= i < |pairs| && pairs[i].0 == k && ToDict(pairs)[k] == pairs[i].1
        && forall j :: i < j < |pairs| ==> pairs[j].0 != k
  {
    if pairs != [] {
      var n := |pairs| - 1;
      var init := pairs[..n];
      ToDictLookup(init, k);
      if pairs[n].0 != k {
        if k in ToDict(init) {
          var i :| 0 <= i < |init| && init[i].0 == k && ToDict(init)[k] == init[i].1
            && forall j :: i < j < |init| ==> init[j].0 != k;
          assert pairs[i] == init[i];
          assert forall j :: i < j < |pairs| ==> pairs[j].0 != k by {
            forall j | i < j < |pairs| ensures pairs[j].0 != k {
              if j < n { assert pairs[j] == init[j]; }
            }
          }
        }
        if exists i :: 0 <= i < |pairs| && pairs[i].0 == k {
          var i :| 0 <= i < |pairs| && pairs[i].0 == k;
          assert i < n && init[i] == pairs[i];
        }
      }
    }
  }

  // ---------------------------------------------------------------------------
  // The transposed counts

  /** A row of transposed_counts: one sample and its count for each gene. */
  datatype SampleRow = SampleRow(sampleId: string, counts: seq<int>)

  /** Every row has one count per sample column. */
  predicate Rectangular(samples: seq<string>, rows: seq<NumericRow>)
  {
    forall i :: 0 <= i < |rows| ==> |rows[i].counts| == |samples|
  }

  /** counts_numeric.T: sample j's row holds column j of every gene row. */
  function Transpose(samples: seq<string>, rows: seq<NumericRow>): seq<SampleRow>
    requires Rectangular(samples, rows)
  {
    seq(|samples|, j requires 0 <= j < |samples| =>
      SampleRow(samples[j], seq(|rows|, i requires 0 <= i < |rows| => rows[i].counts[j])))
  }

  /** The inverse transposition, given the gene IDs that label the columns. */
  function TransposeBack(genes: seq<string>, t: seq<SampleRow>): seq<NumericRow>
    requires forall j :: 0 <= j < |t| ==> |t[j].counts| == |genes|
  {
    seq(|genes|, i requires 0 <= i < |genes| =>
      NumericRow(genes[i], seq(|t|, j requires 0 <= j < |t| => t[j].counts[i])))
  }

  function GeneId(r: NumericRow): string
  {
    r.geneId
  }

  function SampleId(r: SampleRow): string
  {
    r.sampleId
  }

  /** Transposing keeps the sample order and loses nothing: transposing back
      gives counts_numeric again. */
  lemma TransposeRoundTrip(samples: seq<string>, rows: seq<NumericRow>)
    requires Rectangular(samples, rows)
    ensures MapSeq(Transpose(samples, rows), SampleId) == samples
    ensures TransposeBack(MapSeq(rows, GeneId), Transpose(samples, rows)) == rows
  {
    var t := Transpose(samples, rows);
    var back := TransposeBack(MapSeq(rows, GeneId), t);
    forall i | 0 <= i < |rows| ensures back[i] == rows[i] {
      assert back[i].counts == rows[i].counts;
    }
  }

  // ---------------------------------------------------------------------------
  // The design table

  /** A row of metadata_final: Run renamed Sample_ID, and the clinical factor
      renamed Condition. */
  datatype ConditionRow = ConditionRow(sampleId: string, condition: string)

  function ToCondition(r: DesignRow): ConditionRow
  {
    ConditionRow(r.run, r.factorClinical)
  }

  /** metadata[metadata["Analysed"] != "No"] projected to two columns. */
  function MetadataFinal(rows: seq<DesignRow>): seq<ConditionRow>
  {
    MapSeq(Filter(rows, IsAnalysed), ToCondition)
  }

  /** A sample is in the table exactly when an analysed design row projects to
      it. */
  lemma MetadataMembers(rows: seq<DesignRow>, c: ConditionRow)
    ensures c in MetadataFinal(rows) <==>
      exists i :: 0 <= i < |rows| && IsAnalysed(rows[i]) && ToCondition(rows[i]) == c
  {
    MapFilterMembers(rows, IsAnalysed, ToCondition, c);
  }

  /** The filter keeps the design rows in their order. */
  lemma MetadataConcat(a: seq<DesignRow>, b: seq<DesignRow>)
    ensures MetadataFinal(a + b) == MetadataFinal(a) + MetadataFinal(b)
  {
    FilterConcat(a, b, IsAnalysed);
    MapConcat(Filter(a, IsAnalysed), Filter(b, IsAnalysed), ToCondition);
  }

  // ---------------------------------------------------------------------------
  // sort_index on both tables

  function ConditionId(r: ConditionRow): string
  {
    r.sampleId
  }

  predicate SampleLe(a: SampleRow, b: SampleRow)
  {
    StrLe(a.sampleId, b.sampleId)
  }

  predicate ConditionLe(a: ConditionRow, b: ConditionRow)
  {
    StrLe(a.sampleId, b.sampleId)
  }

  /** metadata_final.sort_index(). */
  function MetadataSorted(m: seq<ConditionRow>): seq<ConditionRow>
  {
    SortBy(m, ConditionLe)
  }

  /** transposed_counts.sort_index(). */
  function CountsSorted(t: seq<SampleRow>): seq<SampleRow>
  {
    SortBy(t, SampleLe)
  }

  lemma SampleOrders()
    ensures TotalPreorder(SampleLe) && TotalPreorder(ConditionLe)
  {
    StrLeTotalOrder();
  }

  /** Both sorted tables hold the original rows and list their sample IDs in
      order. */
  lemma SortedBySample(m: seq<ConditionRow>, t: seq<SampleRow>)
    ensures multiset(MetadataSorted(m)) == multiset(m) && multiset(CountsSorted(t)) == multiset(t)
    ensures SortedBy(MapSeq(MetadataSorted(m), ConditionId), StrLe)
    ensures SortedBy(MapSeq(CountsSorted(t), SampleId), StrLe)
  {
    SampleOrders();
    SortBySorted(m, ConditionLe);
    SortBySorted(t, SampleLe);
  }

  /** When the design table and the counts hold the same sample IDs, the sorted
      tables list them identically, so row j of one describes row j of the
      other, whatever order the rows came in. */
  lemma SamplesAligned(m: seq<ConditionRow>, t: seq<SampleRow>)
    requires multiset(MapSeq(m, ConditionId)) == multiset(MapSeq(t, SampleId))
    ensures MapSeq(MetadataSorted(m), ConditionId) == MapSeq(CountsSorted(t), SampleId)
  {
    var km := MapSeq(m, ConditionId);
    var kt := MapSeq(t, SampleId);
    assert OrdersByKey(ConditionLe, StrLe, ConditionId);
    assert OrdersByKey(SampleLe, StrLe, SampleId);
    SortByKeys(m, ConditionLe, StrLe, ConditionId);
    SortByKeys(t, SampleLe, StrLe, SampleId);
    StrLeTotalOrder();
    SortBySorted(km, StrLe);
    SortBySorted(kt, StrLe);
    SortedUnique(SortBy(km, StrLe), SortBy(kt, StrLe), StrLe);
  }

  // ---------------------------------------------------------------------------
  // add_gene_names

  /** A row of a DeseqStats results_df, indexed by Gene ID; pydeseq2 leaves NaN
      (None) where a statistic is undefined. */
  datatype DeseqResult = DeseqResult(
    geneId: string,
    baseMean: real,
    log2FoldChange: Option<real>,
    lfcSE: Option<real>,
    stat: Option<real>,
    pvalue: Option<real>,
    padj: Option<real>)

  /** The same row with its Gene_Name column. */
  datatype NamedResult = NamedResult(result: DeseqResult, geneName: Option<string>)

  /** index.map(dict): the dictionary's entry, or NaN when the ID is not a key. */
  function Lookup(names: map<string, Option<string>>, id: string): Option<string>
  {
    if id in names then names[id] else None
  }

  function Annotate(names: map<string, Option<string>>, r: DeseqResult): NamedResult
  {
    NamedResult(r, Lookup(names, r.geneId))
  }

  /** add_gene_names on a copy: every row of the results, in order, with the
      name of its Gene ID. */
  function AddGeneNames(results: seq<DeseqResult>, names: map<string, Option<string>>): seq<NamedResult>
  {
    MapSeq(results, r => Annotate(names, r))
  }

  function Unannotate(r: NamedResult): DeseqResult
  {
    r.result
  }

  /** The new column is all that changes: dropping it gives the results back. */
  lemma AddGeneNamesKeepsResults(results: seq<DeseqResult>, names: map<string, Option<string>>)
    ensures MapSeq(AddGeneNames(results, names), Unannotate) == results
  {
  }

  /** With the dictionary of some count rows, a result row gets the name of the
      last of those rows with its Gene ID, and NaN when there is none. */
  lemma AnnotateFromRows(kept: seq<CountRow>, names: map<string, Option<string>>, r: DeseqResult)
    requires names == ToDict(GeneNames(kept))
    ensures (forall j :: 0 <= j < |kept| ==> kept[j].geneId != r.geneId) ==> Annotate(names, r).geneName == None
    ensures (exists j :: 0 <= j < |kept| && kept[j].geneId == r.geneId) ==>
      exists j :: 0 <= j < |kept| && kept[j].geneId == r.geneId && kept[j].geneName == Annotate(names, r).geneName
        && forall j' :: j < j' < |kept| ==> kept[j'].geneId != r.geneId
  {
    var pairs := GeneNames(kept);
    ToDictLookup(pairs, r.geneId);
    if exists j :: 0 <= j < |kept| && kept[j].geneId == r.geneId {
      var j :| 0 <= j < |kept| && kept[j].geneId == r.geneId;
      assert pairs[j].0 == r.geneId;
      var k :| 0 <= k < |pairs| && pairs[k].0 == r.geneId && names[r.geneId] == pairs[k].1
        && forall j' :: k < j' < |pairs| ==> pairs[j'].0 != r.geneId;
      assert kept[k].geneId == r.geneId;
    }
  }

  /** With the dictionary of raw_counts_final, a result row keeps its
      statistics and gets a name exactly when its Gene ID is a kept gene, that
      of the last kept row with the ID. */
  lemma AddGeneNamesFromCounts(rows: seq<CountRow>, results: seq<DeseqResult>, i: nat)
    requires i < |results|
    ensures var kept := FilterGenes(rows); var r := AddGeneNames(results, ToDict(GeneNames(kept)))[i];
      && r.result == results[i]
      && (r.geneName.Some? <==> exists j :: 0 <= j < |kept| && kept[j].geneId == results[i].geneId)
      && (r.geneName.Some? ==>
            exists j :: 0 <= j < |kept| && kept[j].geneId == results[i].geneId && kept[j].geneName == r.geneName
              && forall j' :: j < j' < |kept| ==> kept[j'].geneId != results[i].geneId)
  {
    var kept := FilterGenes(rows);
    var names := ToDict(GeneNames(kept));
    assert AddGeneNames(results, names)[i] == Annotate(names, results[i]);
    AnnotateFromRows(kept, names, results[i]);
    assert forall j :: 0 <= j < |kept| ==> HasName(kept[j]);
  }

  // ---------------------------------------------------------------------------
  // normalized_counts_t['Gene_Name'] = gene_names

  /** A row of normalized_counts_t: a gene and its normalized count per sample. */
  datatype NormalizedRow = NormalizedRow(geneId: string, counts: seq<real>)

  datatype NamedNormalizedRow = NamedNormalizedRow(row: NormalizedRow, geneName: Option<string>)

  function NormalizedId(r: NormalizedRow): string
  {
    r.geneId
  }

  function EntryKey(e: (string, Option<string>)): string
  {
    e.0
  }

  predicate UniqueKeys(names: seq<(string, Option<string>)>)
  {
    forall i, j :: 0 <= i < j < |names| ==> names[i].0 != names[j].0
  }

  /** The series' value for a label, NaN when the label is absent. */
  function SeriesGet(names: seq<(string, Option<string>)>, id: string): Option<string>
  {
    if names == [] then None
    else if names[0].0 == id then names[0].1
    else SeriesGet(names[1..], id)
  }

  lemma {:induction false} SeriesGetAt(names: seq<(string, Option<string>)>, j: nat)
    requires UniqueKeys(names) && j < |names|
    ensures SeriesGet(names, names[j].0) == names[j].1
  {
    if j > 0 {
      assert names[0].0 != names[j].0;
      assert UniqueKeys(names[1..]) by {
        forall a, b | 0 <= a < b < |names[1..]| ensures names[1..][a].0 != names[1..][b].0 {
          assert names[1..][a] == names[a + 1] && names[1..][b] == names[b + 1];
        }
      }
      assert names[1..][j - 1] == names[j];
      SeriesGetAt(names[1..], j - 1);
    }
  }

  lemma {:induction false} SeriesGetAbsent(names: seq<(string, Option<string>)>, id: string)
    requires forall j :: 0 <= j < |names| ==> names[j].0 != id
    ensures SeriesGet(names, id) == None
  {
    if names != [] {
      assert forall j :: 0 <= j < |names[1..]| ==> names[1..][j] == names[j + 1];
      SeriesGetAbsent(names[1..], id);
    }
  }

  /** Column assignment of a series: pandas aligns the series with the frame's
      index. When both indexes are the same the values are taken position by
      position; otherwise the series is looked up by label, which raises (None
      here) when its labels repeat. */
  function AssignNames(rows: seq<NormalizedRow>, names: seq<(string, Option<string>)>): Option<seq<NamedNormalizedRow>>
  {
    if MapSeq(rows, NormalizedId) == MapSeq(names, EntryKey) then
      Some(seq(|rows|, i requires 0 <= i < |rows| => NamedNormalizedRow(rows[i], names[i].1)))
    else if !UniqueKeys(names) then None
    else Some(seq(|rows|, i requires 0 <= i < |rows| => NamedNormalizedRow(rows[i], SeriesGet(names, rows[i].geneId))))
  }

  /** When gene_names has one entry per Gene ID the assignment succeeds, keeps
      the rows in order, and gives each the name gene_names records for its ID,
      or NaN when the ID is not there. */
  lemma AssignNamesAligned(rows: seq<NormalizedRow>, names: seq<(string, Option<string>)>)
    requires UniqueKeys(names)
    ensures AssignNames(rows, names).Some?
    ensures var out := AssignNames(rows, names).value;
      && |out| == |rows|
      && (forall i :: 0 <= i < |rows| ==> out[i].row == rows[i])
      && (forall i, j :: 0 <= i < |rows| && 0 <= j < |names| && names[j].0 == rows[i].geneId ==>
            out[i].geneName == names[j].1)
      && (forall i :: 0 <= i < |rows| && (forall j :: 0 <= j < |names| ==> names[j].0 != rows[i].geneId) ==>
            out[i].geneName == None)
  {
    var out := AssignNames(rows, names).value;
    if MapSeq(rows, NormalizedId) == MapSeq(names, EntryKey) {
      forall i, j | 0 <= i < |rows| && 0 <= j < |names| && names[j].0 == rows[i].geneId
        ensures out[i].geneName == names[j].1
      {
        assert MapSeq(names, EntryKey)[i] == MapSeq(rows, NormalizedId)[i];
        assert names[i].0 == rows[i].geneId;
      }
      assert forall i :: 0 <= i < |rows| ==> i < |names| && names[i].0 == rows[i].geneId by {
        forall i | 0 <= i < |rows| ensures i < |names| && names[i].0 == rows[i].geneId {
          assert MapSeq(names, EntryKey)[i] == MapSeq(rows, NormalizedId)[i];
        }
      }
    } else {
      forall i, j | 0 <= i < |rows| && 0 <= j < |names| && names[j].0 == rows[i].geneId
        ensures out[i].geneName == names[j].1
      {
        SeriesGetAt(names, j);
      }
      forall i | 0 <= i < |rows| && (forall j :: 0 <= j < |names| ==> names[j].0 != rows[i].geneId)
        ensures out[i].geneName == None
      {
        SeriesGetAbsent(names, rows[i].geneId);
      }
    }
  }

  /** When the frame's index and the series' index are the same sequence of
      Gene IDs, the values are taken by position, even where an ID repeats:
      each row gets the name recorded at its own position, an entry for its ID. */
  lemma AssignNamesPositional(rows: seq<NormalizedRow>, names: seq<(string, Option<string>)>)
    requires MapSeq(rows, NormalizedId) == MapSeq(names, EntryKey)
    ensures AssignNames(rows, names).Some?
    ensures var out := AssignNames(rows, names).value;
      && |out| == |rows| == |names|
      && forall i :: 0 <= i < |rows| ==>
           out[i].row == rows[i] && names[i].0 == rows[i].geneId && out[i].geneName == names[i].1
  {
    forall i | 0 <= i < |rows| ensures names[i].0 == rows[i].geneId {
      assert MapSeq(names, EntryKey)[i] == MapSeq(rows, NormalizedId)[i];
    }
  }

  /** A series whose labels repeat cannot be aligned with a different index. */
  lemma AssignNamesDuplicate(rows: seq<NormalizedRow>, names: seq<(string, Option<string>)>)
    requires !UniqueKeys(names) && MapSeq(rows, NormalizedId) != MapSeq(names, EntryKey)
    ensures AssignNames(rows, names) == None
  {
  }
}

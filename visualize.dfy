/** visualize_results.py: the volcano inputs of each comparison, the set of
    significant genes of each comparison, the genes significant in at least two
    comparisons, and the count tables behind the heatmaps. Plotting and file
    reading are not modelled: the results and normalized-count tables are
    inputs, and what would be plotted is the output. */
module Visualize {
  import opened Wrappers
  import opened Seqs

  /** The comparisons, in the order the script visits them. */
  const Comparisons: seq<string> := [
    "tnbc_vs_normal",
    "nontnbc_vs_normal",
    "her2_vs_normal",
    "tnbc_vs_nontnbc",
    "tnbc_vs_her2",
    "nontnbc_vs_her2"
  ]

  const PThreshold: real := 0.05
  const LfcThreshold: real := 0.5
  const MinComparisons: nat := 2
  /** Largest number of genes in a heatmap. */
  const TopGenes: nat := 50
  /** Number of genes labelled on a volcano plot. */
  const VolcanoLabels: nat := 10

  lemma ComparisonsDistinct()
    ensures forall i, j :: 0 <= i < j < |Comparisons| ==> Comparisons[i] != Comparisons[j]
  {
  }

  /** A Gene_Name value; None stands for a missing (NaN) name. */
  type Label = Option<string>

  /** A row of a {comparison}_results.csv file; None is a NaN statistic. */
  datatype ResultRow = ResultRow(geneName: Label, log2FoldChange: Option<real>, pvalue: Option<real>)

  /** A row of normalized_counts.csv indexed by Gene_Name, without its Gene ID
      column. */
  datatype CountsRow = CountsRow(geneName: Label, counts: seq<real>)

  function Abs(x: real): real
  {
    if x < 0.0 then -x else x
  }

  function NameOf(r: ResultRow): Label
  {
    r.geneName
  }

  // ---------------------------------------------------------------------------
  // Volcano plots

  /** dropna(subset=["log2FoldChange", "pvalue"]). */
  predicate Plottable(r: ResultRow)
  {
    r.log2FoldChange.Some? && r.pvalue.Some?
  }

  function VolcanoRows(rows: seq<ResultRow>): seq<ResultRow>
  {
    Filter(rows, Plottable)
  }

  /** sort_values("pvalue") order: smaller p-values first, NaN last. */
  predicate PLe(a: ResultRow, b: ResultRow)
  {
    b.pvalue.None? || (a.pvalue.Some? && a.pvalue.value <= b.pvalue.value)
  }

  lemma PLeTotalPreorder()
    ensures TotalPreorder(PLe)
  {
  }

  /** The names passed as genenames: those of the ten rows with the lowest
      p-values. */
  function VolcanoGeneNames(rows: seq<ResultRow>): seq<Label>
  {
    MapSeq(TopK(VolcanoRows(rows), VolcanoLabels, PLe), NameOf)
  }

  /** Exactly the rows with both statistics present reach the plot, in their
      order. */
  lemma VolcanoRowsKept(rows: seq<ResultRow>, more: seq<ResultRow>)
    ensures forall r :: r in VolcanoRows(rows) <==> r in rows && r.log2FoldChange.Some? && r.pvalue.Some?
    ensures VolcanoRows(rows + more) == VolcanoRows(rows) + VolcanoRows(more)
  {
    FilterConcat(rows, more, Plottable);
  }

  /** Ten labels (fewer only when fewer rows remain), each the name of a plotted
      row whose p-value is no larger than that of any unlabelled plotted row. */
  lemma VolcanoLabelsLowest(rows: seq<ResultRow>)
    ensures |VolcanoGeneNames(rows)| == Min(VolcanoLabels, |VolcanoRows(rows)|)
    ensures forall i :: 0 <= i < |VolcanoGeneNames(rows)| ==>
      exists r :: r in VolcanoRows(rows) && r.geneName == VolcanoGeneNames(rows)[i]
    ensures var top := TopK(VolcanoRows(rows), VolcanoLabels, PLe);
      var rest := BeyondK(VolcanoRows(rows), VolcanoLabels, PLe);
      forall i, j :: 0 <= i < |top| && 0 <= j < |rest| ==>
        top[i].pvalue.Some? && rest[j].pvalue.Some? && top[i].pvalue.value <= rest[j].pvalue.value
  {
    var kept := VolcanoRows(rows);
    var top := TopK(kept, VolcanoLabels, PLe);
    var rest := BeyondK(kept, VolcanoLabels, PLe);
    PLeTotalPreorder();
    TopKRanking(kept, VolcanoLabels, PLe);
    TopKMembers(kept, VolcanoLabels, PLe);
    forall i | 0 <= i < |top| ensures top[i] in kept && top[i].pvalue.Some? {
      assert top[i] in top;
    }
    forall j | 0 <= j < |rest| ensures rest[j].pvalue.Some? {
      assert rest[j] in rest;
    }
  }

  /** What each visit of the first loop plots: the rows and the labelled
      names. */
  datatype Volcano = Volcano(rows: seq<ResultRow>, labels: seq<Label>)

  function VolcanoOf(rows: seq<ResultRow>): Volcano
  {
    Volcano(VolcanoRows(rows), VolcanoGeneNames(rows))
  }

  /** The first loop: one volcano plot per comparison, in the order of
      Comparisons. */
  method VolcanoPlots(results: seq<seq<ResultRow>>) returns (plots: seq<Volcano>)
    ensures |plots| == |results|
    ensures forall k :: 0 <= k < |plots| ==> plots[k] == VolcanoOf(results[k])
  {
    plots := Each(results, VolcanoOf);
  }

  // ---------------------------------------------------------------------------
  // Significant genes

  /** pvalue < 0.05 and |log2FoldChange| > 0.5; a NaN fails both comparisons. */
  predicate IsSignificant(r: ResultRow)
  {
    r.pvalue.Some? && r.pvalue.value < PThreshold
    && r.log2FoldChange.Some? && Abs(r.log2FoldChange.value) > LfcThreshold
  }

  /** set(sig_df['Gene_Name'].tolist()). */
  function SignificantSet(rows: seq<ResultRow>): set<Label>
  {
    set r | r in Filter(rows, IsSignificant) :: r.geneName
  }

  /** A name is significant in a comparison exactly when some row of it has
      that name, a p-value below 0.05 and a fold change above 0.5 in size. */
  lemma SignificantIff(rows: seq<ResultRow>, g: Label)
    ensures g in SignificantSet(rows) <==>
      exists i :: 0 <= i < |rows| && rows[i].geneName == g
        && rows[i].pvalue.Some? && rows[i].pvalue.value < 0.05
        && rows[i].log2FoldChange.Some? && (rows[i].log2FoldChange.value > 0.5 || rows[i].log2FoldChange.value < -0.5)
  {
    var sig := Filter(rows, IsSignificant);
    if g in SignificantSet(rows) {
      var r :| r in sig && r.geneName == g;
      var i :| 0 <= i < |sig| && sig[i] == r;
      assert sig[i] in rows;
      var j :| 0 <= j < |rows| && rows[j] == r;
      assert IsSignificant(rows[j]);
    }
    if exists i :: 0 <= i < |rows| && rows[i].geneName == g && IsSignificant(rows[i]) {
      var i :| 0 <= i < |rows| && rows[i].geneName == g && IsSignificant(rows[i]);
      assert rows[i] in sig;
    }
  }

  /** The second loop: significant_genes, whose values in insertion order are
      the sets of the comparisons in order. */
  method SignificantGenes(results: seq<seq<ResultRow>>) returns (sig: seq<set<Label>>)
    ensures |sig| == |results|
    ensures forall k :: 0 <= k < |sig| ==> sig[k] == SignificantSet(results[k])
  {
    sig := Each(results, SignificantSet);
  }

  // ---------------------------------------------------------------------------
  // Genes significant in at least two comparisons

  /** sum(1 for genes in significant_genes.values() if gene in genes). */
  function Occurrences(sets: seq<set<Label>>, g: Label): nat
  {
    if sets == [] then 0 else (if g in sets[0] then 1 else 0) + Occurrences(sets[1..], g)
  }

  function Union(sets: seq<set<Label>>): set<Label>
  {
    if sets == [] then {} else Union(sets[..|sets| - 1]) + sets[|sets| - 1]
  }

  lemma {:induction false} UnionIff(sets: seq<set<Label>>, g: Label)
    ensures g in Union(sets) <==> exists k :: 0 <= k < |sets| && g in sets[k]
  {
    if sets != [] {
      var n := |sets| - 1;
      UnionIff(sets[..n], g);
      if exists k :: 0 <= k < |sets| && g in sets[k] {
        var k :| 0 <= k < |sets| && g in sets[k];
        if k < n { assert sets[..n][k] == sets[k]; }
      }
    }
  }

  /** genes_to_keep as the source computes it: the genes of the sets that occur
      in at least min_comparisons of them. */
  function KeepSet(sets: seq<set<Label>>): set<Label>
  {
    set g | g in Union(sets) && Occurrences(sets, g) >= MinComparisons
  }

  lemma {:induction false} OccurrencesTwice(sets: seq<set<Label>>, g: Label)
    ensures Occurrences(sets, g) >= 1 <==> exists i :: 0 <= i < |sets| && g in sets[i]
    ensures Occurrences(sets, g) >= 2 <==> exists i, j :: 0 <= i < j < |sets| && g in sets[i] && g in sets[j]
  {
    if sets != [] {
      var tail := sets[1..];
      OccurrencesTwice(tail, g);
      if exists i :: 0 <= i < |sets| && g in sets[i] {
        var i :| 0 <= i < |sets| && g in sets[i];
        if i > 0 { assert g in tail[i - 1]; }
      }
      if exists i :: 0 <= i < |tail| && g in tail[i] {
        var i :| 0 <= i < |tail| && g in tail[i];
        assert g in sets[i + 1];
      }
      if exists i, j :: 0 <= i < j < |sets| && g in sets[i] && g in sets[j] {
        var i, j :| 0 <= i < j < |sets| && g in sets[i] && g in sets[j];
        assert g in tail[j - 1];
        if i > 0 { assert g in tail[i - 1]; }
      }
      if exists i, j :: 0 <= i < j < |tail| && g in tail[i] && g in tail[j] {
        var i, j :| 0 <= i < j < |tail| && g in tail[i] && g in tail[j];
        assert g in sets[i + 1] && g in sets[j + 1];
      }
      if g in sets[0] && exists i :: 0 <= i < |tail| && g in tail[i] {
        var i :| 0 <= i < |tail| && g in tail[i];
        assert g in sets[i + 1];
      }
    }
  }

  /** A gene is kept exactly when two different comparisons find it
      significant; so every kept gene is in the union, and a gene significant
      in one comparison only is not kept. */
  lemma KeepSetIff(sets: seq<set<Label>>, g: Label)
    ensures g in KeepSet(sets) <==> exists i, j :: 0 <= i < j < |sets| && g in sets[i] && g in sets[j]
    ensures g in KeepSet(sets) ==> g in Union(sets)
    ensures (exists k :: 0 <= k < |sets| && g in sets[k] && forall m :: 0 <= m < |sets| && m != k ==> g !in sets[m])
      ==> g !in KeepSet(sets)
  {
    OccurrencesTwice(sets, g);
    UnionIff(sets, g);
  }

  lemma UnionStep(sets: seq<set<Label>>, k: nat)
    requires k < |sets|
    ensures Union(sets[..k + 1]) == Union(sets[..k]) + sets[k]
  {
    assert sets[..k + 1][..k] == sets[..k];
  }

  /** The third loop: every gene of every set whose occurrence count reaches
      min_comparisons is added to genes_to_keep. */
  method GenesToKeep(sets: seq<set<Label>>) returns (keep: set<Label>)
    ensures keep == KeepSet(sets)
  {
    keep := {};
    for k := 0 to |sets|
      invariant keep == set g | g in Union(sets[..k]) && Occurrences(sets, g) >= MinComparisons
    {
      var rest := sets[k];
      UnionStep(sets, k);
      while rest != {}
        invariant rest <= sets[k]
        invariant keep == set g | g in Union(sets[..k]) + (sets[k] - rest) && Occurrences(sets, g) >= MinComparisons
        decreases rest
      {
        var gene :| gene in rest;
        var count := Occurrences(sets, gene);
        if count >= MinComparisons {
          keep := keep + {gene};
        }
        rest := rest - {gene};
      }
    }
    assert sets[..|sets|] == sets;
  }

  // ---------------------------------------------------------------------------
  // The heatmap of all comparisons

  function NamesIn(names: set<Label>): CountsRow -> bool
  {
    (r: CountsRow) => r.geneName in names
  }

  /** normalized_counts[normalized_counts.index.isin(names)]. */
  function Selected(rows: seq<CountsRow>, names: set<Label>): seq<CountsRow>
  {
    Filter(rows, NamesIn(names))
  }

  lemma SelectedIff(rows: seq<CountsRow>, names: set<Label>)
    ensures forall r :: r in Selected(rows, names) <==> r in rows && r.geneName in names
  {
  }

  /** Descending variance, the order of sort_values(ascending=False). */
  function ByVariance(variance: seq<real> -> real): (CountsRow, CountsRow) -> bool
  {
    (a: CountsRow, b: CountsRow) => variance(a.counts) >= variance(b.counts)
  }

  lemma ByVarianceTotalPreorder(variance: seq<real> -> real)
    ensures TotalPreorder(ByVariance(variance))
  {
  }

  /** The 50 rows of highest variance, kept by position. */
  function TopByVariance(rows: seq<CountsRow>, variance: seq<real> -> real): seq<CountsRow>
  {
    TopK(rows, TopGenes, ByVariance(variance))
  }

  /** sig_counts for the general heatmap: the rows of the genes to keep,
      narrowed to the 50 of highest variance when there are more. */
  function HeatmapCounts(rows: seq<CountsRow>, keep: set<Label>, variance: seq<real> -> real): seq<CountsRow>
  {
    var s := Selected(rows, keep);
    if |s| > TopGenes then TopByVariance(s, variance) else s
  }

  /** The heatmap table has at most 50 rows, is the selection itself when that
      has no more than 50, holds only selected rows, and ranks no dropped row
      above a kept one by variance. */
  lemma HeatmapCountsTop(rows: seq<CountsRow>, keep: set<Label>, variance: seq<real> -> real)
    ensures var s := Selected(rows, keep); var h := HeatmapCounts(rows, keep, variance);
      && |h| <= TopGenes
      && (|s| <= TopGenes ==> h == s)
      && multiset(h) <= multiset(s)
      && (forall i :: 0 <= i < |h| ==> h[i] in rows && h[i].geneName in keep)
      && (|s| > TopGenes ==>
            forall i, j :: 0 <= i < |h| && 0 <= j < |BeyondK(s, TopGenes, ByVariance(variance))| ==>
              variance(h[i].counts) >= variance(BeyondK(s, TopGenes, ByVariance(variance))[j].counts))
  {
    var s := Selected(rows, keep);
    var h := HeatmapCounts(rows, keep, variance);
    if |s| > TopGenes {
      ByVarianceTotalPreorder(variance);
      TopKRanking(s, TopGenes, ByVariance(variance));
      TopKMembers(s, TopGenes, ByVariance(variance));
      forall i | 0 <= i < |h| ensures h[i] in rows && h[i].geneName in keep {
        assert h[i] in h;
      }
    }
  }

  // The selection as written: .loc[top_genes] with the Gene_Name labels.

  /** The rows labelled l. */
  function RowsNamed(rows: seq<CountsRow>, l: Label): seq<CountsRow>
  {
    if rows == [] then []
    else (if rows[0].geneName == l then [rows[0]] else []) + RowsNamed(rows[1..], l)
  }

  /** .loc with a list of labels: for each label in turn, every row carrying it. */
  function LocByLabels(rows: seq<CountsRow>, labels: seq<Label>): seq<CountsRow>
  {
    if labels == [] then [] else RowsNamed(rows, labels[0]) + LocByLabels(rows, labels[1..])
  }

  function CountsName(r: CountsRow): Label
  {
    r.geneName
  }

  /** The narrowing as the script writes it: the labels of the 50 rows of
      highest variance, looked up again in the table by label. */
  function HeatmapCountsAsWritten(rows: seq<CountsRow>, keep: set<Label>, variance: seq<real> -> real): seq<CountsRow>
  {
    var s := Selected(rows, keep);
    if |s| > TopGenes then LocByLabels(s, MapSeq(TopByVariance(s, variance), CountsName)) else s
  }

  lemma {:induction false} RowsNamedAll(rows: seq<CountsRow>, l: Label)
    requires forall i :: 0 <= i < |rows| ==> rows[i].geneName == l
    ensures RowsNamed(rows, l) == rows
  {
    if rows != [] {
      RowsNamedAll(rows[1..], l);
    }
  }

  lemma {:induction false} LocSameLabel(rows: seq<CountsRow>, labels: seq<Label>, l: Label)
    requires forall i :: 0 <= i < |rows| ==> rows[i].geneName == l
    requires forall i :: 0 <= i < |labels| ==> labels[i] == l
    ensures |LocByLabels(rows, labels)| == |labels| * |rows|
  {
    if labels != [] {
      RowsNamedAll(rows, l);
      LocSameLabel(rows, labels[1..], l);
    }
  }

  /** When more than 50 kept rows share one Gene_Name, the script's heatmap
      table repeats all of them once for each of the 50 labels. */
  lemma SharedLabelRepeats(rows: seq<CountsRow>, keep: set<Label>, l: Label, variance: seq<real> -> real)
    requires l in keep && |rows| > TopGenes
    requires forall i :: 0 <= i < |rows| ==> rows[i].geneName == l
    ensures |HeatmapCountsAsWritten(rows, keep, variance)| == TopGenes * |rows|
  {
    var s := Selected(rows, keep);
    FilterAll(rows, NamesIn(keep));
    var top := TopByVariance(s, variance);
    TopKRanking(s, TopGenes, ByVariance(variance));
    TopKMembers(s, TopGenes, ByVariance(variance));
    var labels := MapSeq(top, CountsName);
    forall i | 0 <= i < |labels| ensures labels[i] == l {
      assert top[i] in top;
    }
    LocSameLabel(s, labels, l);
  }

  /** Fifty-one kept rows named "A": the script's heatmap table then has
      50 * 51 rows instead of at most 50. */
  lemma AsWrittenExceedsTop(variance: seq<real> -> real)
    ensures var rows := seq(51, i => CountsRow(Some("A"), []));
      |HeatmapCountsAsWritten(rows, {Some("A")}, variance)| == 2550
  {
    var rows := seq(51, i => CountsRow(Some("A"), []));
    SharedLabelRepeats(rows, {Some("A")}, Some("A"), variance);
  }

  lemma {:induction false} RowsNamedUnique(rows: seq<CountsRow>, r: CountsRow)
    requires forall i, j :: 0 <= i < j < |rows| ==> rows[i].geneName != rows[j].geneName
    requires r in rows
    ensures RowsNamed(rows, r.geneName) == [r]
  {
    if rows[0] != r {
      assert r in rows[1..];
      RowsNamedUnique(rows[1..], r);
    } else {
      assert forall i :: 0 <= i < |rows[1..]| ==> rows[1..][i].geneName != r.geneName by {
        forall i | 0 <= i < |rows[1..]| ensures rows[1..][i].geneName != r.geneName {
          assert rows[1..][i] == rows[i + 1];
        }
      }
      RowsNamedNone(rows[1..], r.geneName);
    }
  }

  lemma {:induction false} RowsNamedNone(rows: seq<CountsRow>, l: Label)
    requires forall i :: 0 <= i < |rows| ==> rows[i].geneName != l
    ensures RowsNamed(rows, l) == []
  {
    if rows != [] {
      RowsNamedNone(rows[1..], l);
    }
  }

  lemma {:induction false} LocUnique(rows: seq<CountsRow>, top: seq<CountsRow>)
    requires forall i, j :: 0 <= i < j < |rows| ==> rows[i].geneName != rows[j].geneName
    requires forall i :: 0 <= i < |top| ==> top[i] in rows
    ensures LocByLabels(rows, MapSeq(top, CountsName)) == top
  {
    if top != [] {
      RowsNamedUnique(rows, top[0]);
      MapCons(top[0], top[1..], CountsName);
      assert [top[0]] + top[1..] == top;
      LocUnique(rows, top[1..]);
    }
  }

  /** No two rows carry the same name. */
  predicate DistinctNames(rows: seq<CountsRow>)
  {
    forall i, j :: 0 <= i < j < |rows| ==> rows[i].geneName != rows[j].geneName
  }

  /** When the selected rows carry distinct names, the script's relookup by
      label gives exactly the positional top 50. */
  lemma AsWrittenAgreesWhenUnique(rows: seq<CountsRow>, keep: set<Label>, variance: seq<real> -> real)
    requires DistinctNames(Selected(rows, keep))
    ensures HeatmapCountsAsWritten(rows, keep, variance) == HeatmapCounts(rows, keep, variance)
  {
    var s := Selected(rows, keep);
    if |s| > TopGenes {
      var top := TopByVariance(s, variance);
      ByVarianceTotalPreorder(variance);
      TopKRanking(s, TopGenes, ByVariance(variance));
      TopKMembers(s, TopGenes, ByVariance(variance));
      forall i | 0 <= i < |top| ensures top[i] in s {
        assert top[i] in top;
      }
      LocUnique(s, top);
    }
  }

  // ---------------------------------------------------------------------------
  // One heatmap per comparison

  function NamedIn(sigSet: set<Label>): ResultRow -> bool
  {
    (r: ResultRow) => r.geneName in sigSet
  }

  /** The rows of the comparison, with a name in its significant set. */
  function SignificantRows(sigSet: set<Label>, rows: seq<ResultRow>): seq<ResultRow>
  {
    Filter(rows, NamedIn(sigSet))
  }

  /** comp_df['Gene_Name'].tolist() after sorting by p-value and keeping 50. */
  function NarrowedGenes(sigSet: set<Label>, rows: seq<ResultRow>): seq<Label>
  {
    MapSeq(TopK(SignificantRows(sigSet, rows), TopGenes, PLe), NameOf)
  }

  /** comp_genes as the isin below uses it: the whole significant set, or the
      narrowed list when the set has more than 50 genes. */
  function ComparisonGenes(sigSet: set<Label>, rows: seq<ResultRow>): set<Label>
  {
    if |sigSet| > TopGenes then set g | g in NarrowedGenes(sigSet, rows) else sigSet
  }

  /** The narrowed list has at most 50 entries, all from the significant set,
      and none of the rows behind it has a larger p-value than a row it left
      out. */
  lemma NarrowedGenesTop(sigSet: set<Label>, rows: seq<ResultRow>)
    ensures |NarrowedGenes(sigSet, rows)| <= TopGenes
    ensures forall i :: 0 <= i < |NarrowedGenes(sigSet, rows)| ==> NarrowedGenes(sigSet, rows)[i] in sigSet
    ensures ComparisonGenes(sigSet, rows) <= sigSet
    ensures var cand := SignificantRows(sigSet, rows);
      var top := TopK(cand, TopGenes, PLe); var rest := BeyondK(cand, TopGenes, PLe);
      forall i, j :: 0 <= i < |top| && 0 <= j < |rest| ==> PLe(top[i], rest[j])
  {
    var cand := SignificantRows(sigSet, rows);
    var top := TopK(cand, TopGenes, PLe);
    PLeTotalPreorder();
    TopKRanking(cand, TopGenes, PLe);
    TopKMembers(cand, TopGenes, PLe);
    forall i | 0 <= i < |top| ensures top[i].geneName in sigSet {
      assert top[i] in top;
    }
  }

  /** A heatmap drawn for one comparison. */
  datatype Heatmap = Heatmap(comparison: string, rows: seq<CountsRow>)

  /** comp_counts of comparison k. */
  function ComparisonCounts(sig: seq<set<Label>>, results: seq<seq<ResultRow>>, normalized: seq<CountsRow>, k: nat): seq<CountsRow>
    requires k < |sig| && k < |results|
  {
    Selected(normalized, ComparisonGenes(sig[k], results[k]))
  }

  /** The heatmaps of the first n comparisons: one for each whose comp_counts
      is not empty. */
  function DrawnHeatmaps(sig: seq<set<Label>>, results: seq<seq<ResultRow>>, normalized: seq<CountsRow>, n: nat): seq<Heatmap>
    requires n <= |Comparisons| && n <= |sig| && n <= |results|
  {
    if n == 0 then []
    else
      var c := ComparisonCounts(sig, results, normalized, n - 1);
      DrawnHeatmaps(sig, results, normalized, n - 1) + (if |c| > 0 then [Heatmap(Comparisons[n - 1], c)] else [])
  }

  /** A comparison gets a heatmap exactly when its table is not empty, and then
      that table is the heatmap's. */
  lemma {:induction false} DrawnIff(sig: seq<set<Label>>, results: seq<seq<ResultRow>>, normalized: seq<CountsRow>, n: nat, k: nat)
    requires n <= |Comparisons| && n <= |sig| && n <= |results| && k < n
    ensures (exists h :: h in DrawnHeatmaps(sig, results, normalized, n) && h.comparison == Comparisons[k])
      <==> ComparisonCounts(sig, results, normalized, k) != []
    ensures forall h :: h in DrawnHeatmaps(sig, results, normalized, n) && h.comparison == Comparisons[k] ==>
      h.rows == ComparisonCounts(sig, results, normalized, k)
  {
    var prev := DrawnHeatmaps(sig, results, normalized, n - 1);
    ComparisonsDistinct();
    DrawnNames(sig, results, normalized, n - 1);
    if k < n - 1 {
      DrawnIff(sig, results, normalized, n - 1, k);
    } else {
      RowsOfNone(prev, Comparisons[k], n - 1);
    }
  }

  /** The heatmaps of the first n comparisons are named after them. */
  lemma {:induction false} DrawnNames(sig: seq<set<Label>>, results: seq<seq<ResultRow>>, normalized: seq<CountsRow>, n: nat)
    requires n <= |Comparisons| && n <= |sig| && n <= |results|
    ensures forall h :: h in DrawnHeatmaps(sig, results, normalized, n) ==>
      h.rows != [] && exists k :: 0 <= k < n && h.comparison == Comparisons[k]
  {
    if n > 0 {
      DrawnNames(sig, results, normalized, n - 1);
    }
  }

  lemma RowsOfNone(hs: seq<Heatmap>, name: string, n: nat)
    requires n < |Comparisons| && name == Comparisons[n]
    requires forall h :: h in hs ==> exists k :: 0 <= k < n && h.comparison == Comparisons[k]
    ensures forall h :: h in hs ==> h.comparison != name
  {
    ComparisonsDistinct();
  }

  /** The last loop: comp_genes, comp_counts and a heatmap per comparison
      whose table is not empty. */
  method ComparisonHeatmaps(sig: seq<set<Label>>, results: seq<seq<ResultRow>>, normalized: seq<CountsRow>)
    returns (maps: seq<Heatmap>)
    requires |sig| == |Comparisons| && |results| == |Comparisons|
    ensures maps == DrawnHeatmaps(sig, results, normalized, |Comparisons|)
  {
    maps := [];
    for k := 0 to |Comparisons|
      invariant maps == DrawnHeatmaps(sig, results, normalized, k)
    {
      var compGenes := sig[k];
      if |compGenes| > TopGenes {
        var compDf := SignificantRows(compGenes, results[k]);
        compDf := TopK(compDf, TopGenes, PLe);
        compGenes := set g | g in MapSeq(compDf, NameOf);
      }
      var compCounts := Selected(normalized, compGenes);
      if |compCounts| > 0 {
        maps := maps + [Heatmap(Comparisons[k], compCounts)];
      }
    }
  }

  // ---------------------------------------------------------------------------
  // The whole script

  /** What the script hands to the plotting library. */
  datatype Plots = Plots(volcanoes: seq<Volcano>, significant: seq<set<Label>>, keep: set<Label>,
                         heatmap: seq<CountsRow>, comparisonHeatmaps: seq<Heatmap>)

  /** The whole script, the general heatmap narrowed as the script writes it
      (a relookup of the top 50 labels); that table is the corrected top 50 when
      the selected rows carry distinct names. */
  method VisualizeResults(results: seq<seq<ResultRow>>, normalized: seq<CountsRow>, variance: seq<real> -> real)
    returns (p: Plots)
    requires |results| == |Comparisons|
    ensures |p.volcanoes| == |Comparisons|
    ensures forall k :: 0 <= k < |Comparisons| ==>
      p.volcanoes[k] == VolcanoOf(results[k])
    ensures |p.significant| == |Comparisons|
    ensures forall k :: 0 <= k < |Comparisons| ==> p.significant[k] == SignificantSet(results[k])
    ensures p.keep == KeepSet(p.significant)
    ensures p.heatmap == HeatmapCountsAsWritten(normalized, p.keep, variance)
    ensures DistinctNames(Selected(normalized, p.keep)) ==> p.heatmap == HeatmapCounts(normalized, p.keep, variance)
    ensures p.comparisonHeatmaps == DrawnHeatmaps(p.significant, results, normalized, |Comparisons|)
  {
    var volcanoes := VolcanoPlots(results);
    var sig := SignificantGenes(results);
    var keep := GenesToKeep(sig);
    var sigCounts := Selected(normalized, keep);
    if |sigCounts| > TopGenes {
      var topGenes := MapSeq(TopByVariance(sigCounts, variance), CountsName);
      sigCounts := LocByLabels(sigCounts, topGenes);
    }
    if DistinctNames(Selected(normalized, keep)) {
      AsWrittenAgreesWhenUnique(normalized, keep, variance);
    }
    var maps := ComparisonHeatmaps(sig, results, normalized);
    p := Plots(volcanoes, sig, keep, sigCounts, maps);
  }
}

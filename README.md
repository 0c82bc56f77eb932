# BRCA-GEA pipeline core in Dafny

This project models the record and string logic of a breast-cancer
gene-expression pipeline. The statistics, the plotting and the database server
are outside its scope. Four scripts are modelled:

- **scripts/generate_insert_statements.py** (`InsertStatements`): the
  TSV/CSV-to-MySQL serialiser, and the filter and projection of the experiment
  design. The header fields are wrapped in backticks and the values in single
  quotes. Each data line gives one `INSERT INTO t(h) VALUES(v); ` line, with a
  space before the newline.
- **scripts/setup_database.py** (`SqlBlob`, `DatabaseSetup`): the loader.
  - It drops the nine tables and creates them again; the six comparison tables
    come from one template.
  - For each table in turn it reads the `.sql` file, replaces every `''` with
    `NULL`, cuts the text at each `;` and executes every piece that holds more
    than white space.
  - It commits once at the end.
  - The server is a `Connection` object that holds the log of executed
    statements, a commit flag, and the server's verdict on each statement.
- **scripts/run_deseq_analysis.py** (`DeseqPrep`): the preparation before the
  differential analysis, and the annotation after it.
  - It keeps the genes whose count sum is positive and whose name is present,
    and splits off their names.
  - It transposes the counts, filters and renames the metadata, and sorts both
    tables by sample ID.
  - It adds a `Gene_Name` column to each results table (`add_gene_names`) and
    to the normalized counts.
- **scripts/visualize_results.py** (`Visualize`): the significance aggregator.
  - The volcano pre-filter and its ten labels.
  - The significant set of each comparison: p < 0.05 and |log2FoldChange| > 0.5.
  - The genes significant in at least two comparisons.
  - The top-50 narrowing of the aggregate heatmap by variance, and the top-50
    narrowing by p-value of each per-comparison heatmap.

Supporting modules:

| Module | Contents |
|---|---|
| `Wrappers` | `Option` and `Result` |
| `Text` | Python's `str.isspace`, `strip`, `split` and `join` |
| `Seqs` | filter and map, an insertion sort by a total preorder, `sort_values(...).head(k)` as `TopK`, Python's string order |
| `ExperimentDesign` | the design-table rows shared by two scripts |

## Model

| member | source | states |
|---|---|---|
| Text.Strip | scripts/setup_database.py:153 | `strip()` is empty exactly when the text is all white space; otherwise it neither starts nor ends with white space |
| Text.StripIdempotent | scripts/generate_insert_statements.py:28 | stripping twice is stripping once |
| Text.StripTrailingBlank | scripts/generate_insert_statements.py:32 | white space appended to a line does not survive `strip()` |
| Text.Split | scripts/generate_insert_statements.py:12 | `s.split(d)` for one separator character: never empty; its properties are in `SplitCount`, `SplitPieces` and `JoinSplit` |
| Text.SplitCount | scripts/generate_insert_statements.py:12 | `split(d)` has exactly one more piece than the text has separators |
| Text.SplitPieces | scripts/setup_database.py:152 | no piece of `split(";")` holds a semicolon |
| Text.JoinSplit | scripts/generate_insert_statements.py:12-14 | joining the pieces of a split with the same separator gives the text back |
| InsertStatements.AddBackticks | scripts/generate_insert_statements.py:10-14 | add_backticks; its field count and read-back are in `AddBackticksFields` |
| InsertStatements.AddQuotes | scripts/generate_insert_statements.py:17-21 | add_quotes; its field count and read-back are in `AddQuotesFields`, the lack of escaping in `AddQuotesNoEscaping` |
| InsertStatements.SqlText | scripts/generate_insert_statements.py:29-34 | the text csv_to_mysql returns for the data lines; its line structure is in `SqlTextLines` |
| InsertStatements.WrappedRoundTrip | scripts/generate_insert_statements.py:10-21 | splitting the comma-joined wrapped fields at commas and unwrapping each one gives back `row.split(d)`, when no field holds a comma |
| InsertStatements.AddBackticksFields | scripts/generate_insert_statements.py:10-14 | when the delimiter is the comma or the row holds no comma, the column list has one backticked name per field, `count(d)+1` in all, each reading back verbatim |
| InsertStatements.AddQuotesFields | scripts/generate_insert_statements.py:17-21 | when the delimiter is the comma or the row holds no comma, the value list has one quoted value per field, `count(d)+1` in all, each reading back verbatim |
| InsertStatements.AddQuotesNoEscaping | scripts/generate_insert_statements.py:17-21 | a quote inside a value is copied, not escaped: `O'Brien<TAB>7` becomes `'O'Brien','7'` |
| InsertStatements.WrappedCharacters | scripts/generate_insert_statements.py:10-21 | a wrapped list holds only characters of the row, the wrapping character and commas |
| InsertStatements.TrailingDelimiterDropped | scripts/generate_insert_statements.py:32 | a trailing white-space delimiter adds a field to the raw split, but `strip()` removes it before splitting, so that empty field gets no value |
| InsertStatements.CsvToMysql | scripts/generate_insert_statements.py:24-34 | an empty file is an error, and the only one; a header-only file gives `""`; otherwise the result is the statements of the data lines under the stripped header's column list |
| InsertStatements.SqlTextTerminated | scripts/generate_insert_statements.py:31-33 | the generated text is the statement lines, each followed by one newline |
| InsertStatements.StatementLineNoNewline | scripts/generate_insert_statements.py:33 | a statement line holds no newline when the table name, the column list and the stripped data line hold none |
| InsertStatements.SqlTextLines | scripts/generate_insert_statements.py:28-33 | cut at newlines, the text has exactly one line per data line, in input order, each `INSERT INTO t(h) VALUES(v); ` with the same `h`, and nothing after the last newline |
| InsertStatements.FilteredDesign | scripts/generate_insert_statements.py:42-50 | the filtered design table, no longer than the input; its rows are characterised by `FilteredDesignMembers` and `FilteredDesignRow` |
| InsertStatements.FilteredDesignConcat | scripts/generate_insert_statements.py:42-50 | the design filter works row by row in order: filtering a concatenation is concatenating the filtered parts |
| InsertStatements.FilteredDesignRow | scripts/generate_insert_statements.py:42-50 | a row yields its Sample_ID/Condition/Disease projection exactly when its Analysed value is not `No`, and nothing otherwise |
| InsertStatements.FilteredDesignMembers | scripts/generate_insert_statements.py:42-50 | a sample is in the filtered table exactly when some analysed row projects to it |
| SqlBlob.ReplaceEmptyQuotes | scripts/setup_database.py:151 | `replace("''", "NULL")`; its properties are in `ReplaceNoEmptyQuotes`, `ReplaceUnchanged`, `ReplaceIdempotent`, `ReplaceCharacters` and `ReplaceConcat` |
| SqlBlob.ReplaceNoEmptyQuotes | scripts/setup_database.py:151 | after `replace("''", "NULL")` no two adjacent quotes remain |
| SqlBlob.ReplaceUnchanged | scripts/setup_database.py:151 | text without an empty literal is left as it is |
| SqlBlob.ReplaceIdempotent | scripts/setup_database.py:151 | replacing twice is replacing once |
| SqlBlob.ReplaceCharacters | scripts/setup_database.py:151 | the replacement brings in only the characters of `NULL` |
| SqlBlob.ReplaceConcat | scripts/setup_database.py:151 | the left-to-right, non-overlapping scan lets a text that does not end in a quote be replaced apart from what follows it |
| SqlBlob.BlobPieces | scripts/setup_database.py:151-154 | the pieces executed for one file; characterised by `BlobPiecesClean` and `GeneratedBlobPieces` |
| SqlBlob.BlobPiecesClean | scripts/setup_database.py:151-154 | every executed piece is non-blank and holds no semicolon and no empty literal; every non-blank piece is executed |
| SqlBlob.LoadedStatementHasText | scripts/setup_database.py:153 | every statement of a generated file passes the `strip()` test |
| SqlBlob.GeneratedSplit | scripts/setup_database.py:151-152 | the generated text, replaced and split at semicolons, is one piece per data line, then a blank last piece |
| SqlBlob.GeneratedBlobPieces | scripts/setup_database.py:151-154 | a generated file yields exactly one executed piece per data line, in order, when no value holds a semicolon; the blank piece after the last semicolon is skipped |
| DatabaseSetup.ExecPiecesFiltered | scripts/setup_database.py:152-154 | the executed statements are exactly the pieces with text, in order |
| DatabaseSetup.FileStatements | scripts/setup_database.py:149-154 | the statements executed for one file's text; see `FileStatementsPieces` and `GeneratedFileStatements` |
| DatabaseSetup.FileStatementsPieces | scripts/setup_database.py:150-154 | a file's statements are its non-blank pieces after the replacement |
| DatabaseSetup.GeneratedFileStatements | scripts/setup_database.py:150-154 | a file written for R data lines loads as exactly R statements, each the INSERT of its line with empty literals made NULL |
| DatabaseSetup.SetupPlan | scripts/setup_database.py:29-155 | the script's statements in order and the first missing file; its shape is in `SetupPlanSchema` and `SchemaShape`, its outcome in `LoadedIff`, `RejectedStop` and `MissingStop` |
| DatabaseSetup.Loads | scripts/setup_database.py:148-155 | the load phase, file by file until one is missing; see `LoadsMissingFirst` |
| DatabaseSetup.SchemaShape | scripts/setup_database.py:32-131 | the schema drops all nine tables in load order before creating any, then creates each once, in the same order |
| DatabaseSetup.SetupPlanSchema | scripts/setup_database.py:29-148 | every DROP and CREATE comes before the first statement of any file |
| DatabaseSetup.FirstRejectedSpec | scripts/setup_database.py:154 | every statement before the first refusal is accepted, and the one at it is refused |
| DatabaseSetup.NoneRejectedIff | scripts/setup_database.py:154 | no statement is refused exactly when the server accepts all of them |
| DatabaseSetup.FirstRejectedConcat | scripts/setup_database.py:148-154 | the first refusal in `a + b` is in `a`, or else it is `b`'s, after all of `a` |
| DatabaseSetup.Connection.constructor | scripts/setup_database.py:6-12 | a new connection has an empty log and nothing committed |
| DatabaseSetup.Connection.Execute | scripts/setup_database.py:154 | a statement is logged exactly when the server accepts it; the result says which happened |
| DatabaseSetup.Connection.Commit | scripts/setup_database.py:158 | commit marks the work committed and leaves the log alone |
| DatabaseSetup.ExecuteAll | scripts/setup_database.py:32-107 | fixed statements are executed in turn; the log grows by those before the first refusal, and the refused one is reported |
| DatabaseSetup.CreateComparisons | scripts/setup_database.py:110-131 | the template is filled in with each comparison table, in list order, up to the first refusal |
| DatabaseSetup.LoadFile | scripts/setup_database.py:149-154 | one file's statements are executed in order up to the first refusal, which is reported |
| DatabaseSetup.LoadAll | scripts/setup_database.py:148-155 | files are loaded in table order until one is missing or a statement is refused; the log is the load plan up to that point |
| DatabaseSetup.CreateAndLoad | scripts/setup_database.py:130-155 | the comparison tables are created, then the files are loaded, stopping as the plan says |
| DatabaseSetup.RunScript | scripts/setup_database.py:29-155 | the log is the plan's statements up to the first refusal, and the outcome is the plan's |
| DatabaseSetup.Setup | scripts/setup_database.py:29-158 | on a fresh connection the server ends up with the setup plan up to its first refused statement; the work is committed exactly when the run ends `Loaded` |
| DatabaseSetup.LoadsMissingFirst | scripts/setup_database.py:148-150 | the load phase reports a missing file exactly when some table has none, and then the first such table in load order |
| DatabaseSetup.LoadedIff | scripts/setup_database.py:29-158 | the script commits exactly when every table has its file and the server accepts every statement |
| DatabaseSetup.SentAccepted | scripts/setup_database.py:154 | everything the server holds at the end is a statement it accepted |
| DatabaseSetup.RejectedStop | scripts/setup_database.py:148-158 | a refused statement ends the run: the server refused it, and it is the plan's statement right after all that was sent |
| DatabaseSetup.MissingStop | scripts/setup_database.py:148-150 | a missing file ends the run after every earlier statement; the table reported has no file |
| DeseqPrep.SumPositive | scripts/run_deseq_analysis.py:34 | for counts that are never negative, the row sum is positive exactly when some count is |
| DeseqPrep.FilterGenes | scripts/run_deseq_analysis.py:34-37 | raw_counts_final; characterised by `KeptGenes`, `FilterGenesOnce` and `FilterGenesConcat` |
| DeseqPrep.FilterGenesOnce | scripts/run_deseq_analysis.py:34-37 | the two filters in a row are one filter on both conditions |
| DeseqPrep.KeptGenes | scripts/run_deseq_analysis.py:34-37 | a row is kept exactly when its sum is positive and its name is present |
| DeseqPrep.FilterGenesConcat | scripts/run_deseq_analysis.py:34-37 | the gene filter keeps rows in their relative order |
| DeseqPrep.SplitNames | scripts/run_deseq_analysis.py:40-41 | `counts_numeric` and `gene_names` have the kept rows' Gene IDs in the same order, every name is present, and joining them gives back `raw_counts_final` |
| DeseqPrep.ToDict | scripts/run_deseq_analysis.py:167 | gene_names.to_dict(); characterised by `ToDictLookup` |
| DeseqPrep.ToDictLookup | scripts/run_deseq_analysis.py:167 | `to_dict()` holds exactly the series' IDs, each with the value of its last entry |
| DeseqPrep.Transpose | scripts/run_deseq_analysis.py:44 | counts_numeric.T; see `TransposeRoundTrip` |
| DeseqPrep.TransposeRoundTrip | scripts/run_deseq_analysis.py:44 | the transpose has one row per sample column, in order, and transposing it back gives the gene rows |
| DeseqPrep.MetadataFinal | scripts/run_deseq_analysis.py:49-58 | metadata_final; characterised by `MetadataMembers` and `MetadataConcat` |
| DeseqPrep.MetadataMembers | scripts/run_deseq_analysis.py:49-58 | a (Sample_ID, Condition) pair is in the metadata exactly when some row not marked `No` projects to it |
| DeseqPrep.MetadataConcat | scripts/run_deseq_analysis.py:49-58 | the metadata filter keeps rows in their order |
| DeseqPrep.SampleOrders | scripts/run_deseq_analysis.py:61-65 | ordering by sample ID is a total preorder on both tables |
| DeseqPrep.MetadataSorted | scripts/run_deseq_analysis.py:64 | metadata_sorted; see `SortedBySample` and `SamplesAligned` |
| DeseqPrep.CountsSorted | scripts/run_deseq_analysis.py:65 | counts_sorted; see `SortedBySample` and `SamplesAligned` |
| DeseqPrep.SortedBySample | scripts/run_deseq_analysis.py:61-65 | both sorted tables are permutations of their inputs, and their sample IDs are in ascending order |
| DeseqPrep.SamplesAligned | scripts/run_deseq_analysis.py:61-65 | when the two tables hold the same sample IDs, the sorted tables list them in the same order |
| DeseqPrep.AddGeneNames | scripts/run_deseq_analysis.py:172-175 | add_gene_names; see `AddGeneNamesKeepsResults`, `AnnotateFromRows` and `AddGeneNamesFromCounts` |
| DeseqPrep.AddGeneNamesKeepsResults | scripts/run_deseq_analysis.py:172-175 | annotating keeps every result row, in order, with its statistics unchanged |
| DeseqPrep.AnnotateFromRows | scripts/run_deseq_analysis.py:172-175 | with the dictionary of some rows, a result gets NaN when no row has its Gene ID, and otherwise the name of the last row that does |
| DeseqPrep.AddGeneNamesFromCounts | scripts/run_deseq_analysis.py:167-184 | with the dictionary of `raw_counts_final`, a result gets a name exactly when its gene was kept, the name of the last kept row with its ID |
| DeseqPrep.SeriesGetAt | scripts/run_deseq_analysis.py:208 | with unique labels, looking a label up gives its entry's value |
| DeseqPrep.SeriesGetAbsent | scripts/run_deseq_analysis.py:208 | a label that is not there gives NaN |
| DeseqPrep.AssignNames | scripts/run_deseq_analysis.py:208 | the Gene_Name column assignment; see `AssignNamesPositional` and `AssignNamesAligned` |
| DeseqPrep.AssignNamesPositional | scripts/run_deseq_analysis.py:208 | when the frame and the series have the same Gene ID sequence, the assignment succeeds by position even where an ID repeats: each row keeps its place and gets the name at its own position, an entry for its ID |
| DeseqPrep.AssignNamesAligned | scripts/run_deseq_analysis.py:208 | with one entry per Gene ID the assignment succeeds, keeps the rows in order, and gives each its recorded name or NaN when its ID is absent |
| Seqs.TopKRanking | scripts/visualize_results.py:90 | `sort_values().head(k)` keeps `min(k, n)` elements; they and the rest make up the input; each kept one is ranked no lower than each dropped one |
| Seqs.SortBySorted | scripts/run_deseq_analysis.py:64-65 | under a total preorder the sort's output is in order |
| Visualize.ComparisonsDistinct | scripts/visualize_results.py:13-20 | the six comparison names are distinct |
| Visualize.VolcanoRows | scripts/visualize_results.py:27 | the rows left by dropna; characterised by `VolcanoRowsKept` |
| Visualize.VolcanoGeneNames | scripts/visualize_results.py:34 | the volcano labels; see `VolcanoLabelsLowest` |
| Visualize.VolcanoRowsKept | scripts/visualize_results.py:27 | a row is plotted exactly when both its fold change and its p-value are present, and rows keep their order |
| Visualize.PLeTotalPreorder | scripts/visualize_results.py:34 | ordering by p-value with NaN last is a total preorder |
| Visualize.VolcanoLabelsLowest | scripts/visualize_results.py:27-34 | there are ten labels, or fewer when fewer rows remain; each is a plotted row's name, and no labelled row has a larger p-value than an unlabelled one |
| Visualize.VolcanoPlots | scripts/visualize_results.py:23-53 | one volcano per comparison, in order, each with that comparison's plottable rows and their labels |
| Visualize.SignificantSet | scripts/visualize_results.py:61-62 | one comparison's significant names; characterised by `SignificantIff` |
| Visualize.SignificantIff | scripts/visualize_results.py:61-62 | a name is significant exactly when some row with it has p < 0.05 and a fold change above 0.5 or below -0.5 |
| Visualize.SignificantGenes | scripts/visualize_results.py:57-63 | each comparison's significant set, in comparison order |
| Visualize.UnionIff | scripts/visualize_results.py:66-72 | a gene is in the union exactly when it is in some comparison's set |
| Visualize.OccurrencesTwice | scripts/visualize_results.py:70 | the count is at least 1 exactly when some set has the gene, and at least 2 exactly when two different sets do |
| Visualize.KeepSet | scripts/visualize_results.py:66-72 | genes_to_keep; characterised by `KeepSetIff` and computed by `GenesToKeep` |
| Visualize.KeepSetIff | scripts/visualize_results.py:66-72 | `genes_to_keep` holds exactly the genes in two or more comparisons' sets; it is within their union, and a gene in exactly one set is left out |
| Visualize.GenesToKeep | scripts/visualize_results.py:66-72 | the nested loop computes exactly the set of genes in at least two sets |
| Visualize.SelectedIff | scripts/visualize_results.py:83-85 | a count row is selected exactly when its name is in the set |
| Visualize.ByVarianceTotalPreorder | scripts/visualize_results.py:90 | descending variance is a total preorder |
| Visualize.HeatmapCounts | scripts/visualize_results.py:88-91 | the aggregate table narrowed to the top 50 by position (the corrected narrowing); see `HeatmapCountsTop` |
| Visualize.HeatmapCountsAsWritten | scripts/visualize_results.py:88-91 | the aggregate table as line 91 computes it, by relookup of labels; see `SharedLabelRepeats`, `AsWrittenExceedsTop` and `AsWrittenAgreesWhenUnique` |
| Visualize.HeatmapCountsTop | scripts/visualize_results.py:88-91 | the aggregate table has at most 50 rows and equals the selection when that has 50 or fewer; its rows are selected rows; none it dropped has larger variance than one it kept |
| Visualize.SharedLabelRepeats | scripts/visualize_results.py:88-91 | as written, more than 50 selected rows sharing one label come back 50 times each |
| Visualize.AsWrittenExceedsTop | scripts/visualize_results.py:88-91 | as written, 51 rows named `A` give a 2550-row heatmap table |
| Visualize.AsWrittenAgreesWhenUnique | scripts/visualize_results.py:88-91 | with distinct names, the lookup by label gives exactly the top 50 by position |
| Visualize.NarrowedGenes | scripts/visualize_results.py:107-112 | comp_genes after narrowing; see `NarrowedGenesTop` |
| Visualize.ComparisonGenes | scripts/visualize_results.py:107-113 | comp_genes as the isin uses it; see `NarrowedGenesTop` |
| Visualize.NarrowedGenesTop | scripts/visualize_results.py:107-113 | the narrowed list has at most 50 names, all from the comparison's significant set, and none of its rows has a larger p-value than a dropped row |
| Visualize.DrawnHeatmaps | scripts/visualize_results.py:113-124 | the per-comparison heatmaps drawn; characterised by `DrawnIff` and `DrawnNames` |
| Visualize.DrawnIff | scripts/visualize_results.py:113-124 | a comparison gets a heatmap exactly when its count table is not empty, and that heatmap holds this table |
| Visualize.DrawnNames | scripts/visualize_results.py:113-124 | every heatmap drawn is non-empty and named after one of the comparisons |
| Visualize.ComparisonHeatmaps | scripts/visualize_results.py:106-126 | the loop draws exactly the heatmaps of the comparisons whose tables are not empty, in comparison order |
| Visualize.VisualizeResults | scripts/visualize_results.py:23-124 | the volcanoes, significant sets, kept genes and per-comparison heatmaps are each what the definitions above give; the aggregate table is the script's relookup by label (`HeatmapCountsAsWritten`), and it is the corrected top 50 (`HeatmapCounts`) whenever the selected rows carry distinct names |

## Left out

- The differential analysis itself (scripts/run_deseq_analysis.py:70-163, 195-202): pydeseq2's size factors, dispersions, fold changes and Wald tests. Its result tables and normalized counts are inputs to the model.
- The plotting (scripts/visualize_results.py:29-53, 96-103, 115-122): the plots are modelled as the data handed to the plotting library.
- The MySQL server.
  - The pymysql connection parameters are not modelled.
  - The server's parsing and execution of SQL is a verdict function, `accepts`.
  - The column definitions in the CREATE TABLE texts are reduced to a `Layout` tag.
- File I/O, paths and directories.
  - `readlines()` is given as a sequence of lines.
  - A `.sql` file is given as its text; a missing file is a table without an entry.
  - CSV parsing by pandas, with its quoting rules, is not modelled: tables come in as rows.
  - Writing the filtered design table and the `.sql` files is not modelled.
- `print` diagnostics throughout, and the NaN count at scripts/run_deseq_analysis.py:27-28.
- IEEE floating point: p-values and fold changes are `real`, and NaN is `None`. `0.05` and `0.5` are exact.
- The variance computation (scripts/visualize_results.py:89): it is a parameter, `variance: seq<real> -> real`.
- DeseqPrep.HasPositiveSum: sums only the count columns. The script's `sum(axis=1)` also sees the `Gene Name` column, which pandas skips or rejects depending on its version.
- Gene names as labels: every missing name is the one label `None`. Pandas NaN labels are treated as one label by `isin` and `set`.
- The dictionary `significant_genes` is a sequence of sets aligned with the comparison names, in the dictionary's insertion order.
- Each loop of scripts/visualize_results.py reads the result files again; in the model each table is read once and passed in.
- Sort tie-breaking: `SortBy` is an insertion sort, not pandas' sort. The methods' results (`VolcanoPlots`, `ComparisonHeatmaps`, `VisualizeResults`) follow the insertion sort's order on ties; only the lemmas state properties that hold whatever the order of equal keys.
- `results_df.copy()` in `add_gene_names`: values are immutable in the model, so the input being left unchanged holds by construction.
- Integer widths: counts are unbounded `int`.

## Findings

| source | as written | input that shows it | evidently intended | confidence | as-written member | corrected member |
|---|---|---|---|---|---|---|
| scripts/visualize_results.py:88-91 | the top 50 genes by variance are looked up again by label with `.loc[top_genes]`, and each label returns every row that carries it | more than 50 selected rows sharing one Gene_Name: `.loc` returns 50 copies of all of them (51 rows named `A` give 2550 rows) | at most 50 rows, the 50 of highest variance | not executed | Visualize.HeatmapCountsAsWritten (shown by Visualize.AsWrittenExceedsTop) | Visualize.HeatmapCounts (proved by Visualize.HeatmapCountsTop; Visualize.VisualizeResults follows the script and meets it when names are distinct) |

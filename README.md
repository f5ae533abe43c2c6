# churnpulse core, modelled in Dafny

churnpulse trains a churn classifier from a CSV file and writes a Markdown
report. It also ships a cleaner for a house-price regression table. This
project models the parts of that code that make decisions of their own:

- **Label preparation** (`Train`, in `train.dfy`). It chooses the label column,
  either from an explicit name or from the priority list `Churn`, `churn`,
  `target`, `label`. It maps the label column to 0/1:
  - bool columns are cast directly;
  - numeric columns give 1 exactly where the value is `> 0`;
  - text columns are trimmed and lower-cased, then looked up in two disjoint
    token vocabularies.

  Text values in neither vocabulary make the column fail. The error lists up to
  20 of them, sorted and distinct. The remaining columns are split into numeric
  and categorical features. All of this is pure, so it is written as functions,
  with lemmas about them.
- **Report assembly** (`Report`, in `report.dfy`). A list of
  text pieces grows in a fixed section order and is then joined:
  - the title;
  - one bullet per metric;
  - two lines per figure;
  - a fixed notes block.

  The method keeps the source's `seq<string>` accumulator and its two loops.
  It is proved equal to a specification function, `ReportText`, and the
  report's layout is proved about that function.
- **Table cleaning** (`Data`, in `data.dfy`). The cleaner:
  - strips the column names;
  - drops `Unnamed…` index columns;
  - coerces every cell to a number;
  - requires a `PRICE` column;
  - drops rows without a price;
  - fills missing feature cells with the column median.

  The data frame is a class, `Frame`. Its fields are reassigned by one method
  per step, each with a loop. Every method is proved against a value-level
  function. The whole cleaning is specified by `Clean`, and its guarantees are
  lemmas about `Clean`.

Shared pieces:
- `Text` models Python's `str.strip` and `str.lower` on ASCII.
- `Ordering` models Python's string order, `sorted(set(…))` and
  order-preserving filtering.
- `Wrappers` holds `Option` and `Result`. A `Failure` stands for a raised
  exception.

## Model

| member | source | states |
|---|---|---|
| Train.Usable | src/churnpulse/train.py:21 | `target and target in df.columns`: the name is given, non-empty and a column. `Train.InferTargetColumn` and `ExplicitTargetWins` state what follows from it. |
| Train.InferTargetColumn | src/churnpulse/train.py:20-28 | A usable explicit name (given, non-empty, a column) is returned as is. Otherwise the result is the first of `Churn`, `churn`, `target`, `label` that is a column. It fails, with the source's message, exactly when there is no usable name and no candidate. Any returned name is a column. |
| Train.FirstPresent | src/churnpulse/train.py:23-25 | The index found names a present candidate, and every earlier candidate is absent. No index means no candidate is present. |
| Train.ExplicitTargetWins | src/churnpulse/train.py:21-22 | An explicit column name wins even when `Churn` is also a column. |
| Train.FallbackPicksEarliestCandidate | src/churnpulse/train.py:21-25 | An empty or absent explicit name falls back to the list. With `churn` and `label` present and no `Churn`, `churn` is chosen. |
| Train.ToBinary | src/churnpulse/train.py:31-46 | On success the output has the input's length and only 0/1 values. bool: 1 iff true. Numeric: 1 iff `> 0`. A failure happens only for text. |
| Train.TextLabels | src/churnpulse/train.py:38-46 | A text column succeeds iff every stripped, lower-cased value is in a vocabulary; then row i is 1 iff its value is positive and 0 iff it is negative. A failure lists between 1 and 20 values, strictly sorted, each a normalised value of the column found in neither vocabulary. |
| Train.Classify | src/churnpulse/train.py:39-46 | On normalised values: succeeds iff all are recognised, with per-element labels as above. Otherwise it reports a sorted list of at most 20 unrecognised values that occur. |
| Train.TokenLabels | src/churnpulse/train.py:39-42 | Each recognised token maps to 1 iff positive and to 0 iff negative. The length is kept. |
| Train.TokenLabel | src/churnpulse/train.py:42 | The `s.map` lambda on one value: 1 for a positive token, else 0 for a negative one, else missing. `Train.TokenLabelCases` states it. |
| Train.TokenLabelCases | src/churnpulse/train.py:39-42 | The label is 1 exactly for positive tokens, 0 exactly for negative ones, and missing exactly for values in neither vocabulary. |
| Train.Normalize | src/churnpulse/train.py:38 | `.str.strip().str.lower()` on one value. `Train.NormalizeShape`, `Text.LowerStripCommute` and `Train.TokensMatchAnyCaseAnyPadding` state its behaviour. |
| Train.NormalizeShape | src/churnpulse/train.py:38 | A normalised value is no longer than the original, holds no upper-case letter, and has no whitespace at either end. |
| Train.NormalizeAll | src/churnpulse/train.py:38 | `y.astype(str).str.strip().str.lower()` on the column: element i is the normalised row i, and the length is kept. `Train.TextLabels` and `LabelsFollowRows` state its use. |
| Train.Recognized | src/churnpulse/train.py:42-43 | A normalised value gets a label, so `mapped` is not NaN there: it is a positive or a negative token (`Train.TokenLabelCases`). |
| Train.AllRecognized | src/churnpulse/train.py:43 | `not mapped.isna().any()`: every normalised value is recognised. `Train.Classify` and `TextLabels` state that the column is accepted exactly when this holds. |
| Train.Offenders | src/churnpulse/train.py:43-45 | `sorted(set(bad))[:20]`: non-empty, at most 20, strictly sorted, only unrecognised values that occur. |
| Train.Take | src/churnpulse/train.py:45 | `bad[:20]`: a prefix of length `min(len, 20)`. |
| Train.VocabulariesDisjoint | src/churnpulse/train.py:39-40 | No token is both positive and negative. |
| Train.NumericLabelsExample | src/churnpulse/train.py:35-36 | `[0, -1, 2, 0.5, -0.5]` maps to `[0, 0, 1, 1, 0]`. |
| Train.TokensMatchAnyCaseAnyPadding | src/churnpulse/train.py:38-42 | A token in any letter case, padded with any whitespace, is recognised as its lower-case form and labelled by its vocabulary. |
| Train.UnrecognizedIsReported | src/churnpulse/train.py:42-45 | One unrecognised value makes the column fail. The error lists it, or else holds 20 values that all sort before it. |
| Train.MaybeIsRejected | src/churnpulse/train.py:38-45 | `["Yes", " no ", "maybe"]` fails with exactly `["maybe"]`. |
| Train.LabelsFollowRows | src/churnpulse/train.py:31-46 | Selecting, repeating or reordering rows of an accepted column does the same to its labels: element i depends only on row i. |
| Train.ReorderKeepsOutcome | src/churnpulse/train.py:31-46 | A permutation of the rows does not change whether the column is accepted, nor the error reported. |
| Train.OffendersSameElements | src/churnpulse/train.py:44 | The error list depends only on which values occur. |
| Train.FeatureRoles | src/churnpulse/train.py:61-64 | Neither list holds the target, and the lists are disjoint. Every feature column is in one of them. Every numeric feature is in the numeric list. Each numeric name comes from a numeric column; each categorical name comes from a non-numeric column (bool counts as non-numeric). |
| Train.Features | src/churnpulse/train.py:61 | `df.drop(columns=[target])`: keeps exactly the columns not named as the target, in their order. |
| Train.FeatureRolesKeepOrder | src/churnpulse/train.py:61-64 | Both lists keep the dataset's column order. |
| Train.PrepareTraining | src/churnpulse/train.py:59-64 | The steps run in the source's order. The inference error is reported iff inference fails, and it carries the source's fixed message. The label error is reported iff inference succeeds and the inferred column fails `ToBinary`; it carries exactly `ToBinary`'s error list (1 to 20 values). On success the target is the inferred one, the labels are `ToBinary` of that column (one 0/1 label per row), the two feature lists are `FeatureRoles` of the frame without the target, and the target is in neither list. |
| Train.Lookup | src/churnpulse/train.py:60 | `df[target_col]` gives a column of that name. |
| Text.Strip | src/churnpulse/train.py:38 | Removes exactly the leading and trailing whitespace: the result is the middle slice, and the removed ends are whitespace. The result is empty or has non-space ends. |
| Text.StripPadded | src/churnpulse/train.py:38 | Stripping whitespace padding around a text with non-space ends gives back that text; text made only of whitespace strips to the empty string. |
| Text.LowerStripCommute | src/churnpulse/train.py:38 | Lower-casing and stripping commute, so the order of `.str.strip().str.lower()` does not matter. |
| Text.Lower | src/churnpulse/train.py:38 | Keeps the length. Each letter A-Z becomes its lower-case letter (code point + 32); every other character is kept. No upper-case letter is left and whitespace stays in place. |
| Ordering.SortedSet | src/churnpulse/train.py:44 | `sorted(set(xs))`: strictly increasing, with the same elements as `xs`. |
| Ordering.SortedUnique | src/churnpulse/train.py:44 | Two strictly sorted lists with the same elements are equal. |
| Ordering.Insert | src/churnpulse/train.py:44 | Inserting into a sorted list keeps it sorted and adds exactly that element. |
| Ordering.LessTransitive | src/churnpulse/train.py:44 | Python's string order is transitive. |
| Ordering.LessTotal | src/churnpulse/train.py:44 | Python's string order is total on distinct strings. |
| Ordering.Filter | src/churnpulse/train.py:61-64 | `df.drop(columns=[target])` and `[c for c in X.columns if c not in numeric_cols]`: keeps exactly the elements that satisfy the test. It also picks the unrecognised values `s[mapped.isna()]` at line 44. |
| Ordering.FilterIsSubsequence | src/churnpulse/train.py:61-64 | Dropping the target and filtering the feature names keep the order of what they keep. |
| Ordering.SubsequenceTransitive | src/churnpulse/train.py:63-64 | A subsequence of a subsequence is a subsequence. |
| Ordering.MapSubsequence | src/churnpulse/train.py:61-64 | Taking the names of an order-preserving selection of columns gives an order-preserving selection of the names. |
| Report.WriteMarkdownReport | src/churnpulse/report.py:32-50 | The pieces appended in the source's order, metric by metric and figure by figure, join to exactly `ReportText(metrics, figures)`. |
| Report.ReportPieces | src/churnpulse/report.py:34-48 | The pieces appended, in order: title, Metrics heading, one bullet per metric, Figures heading, two lines per figure, notes heading and three notes. There are 7 + (number of metrics) + 2 × (number of figures) of them. |
| Report.ReportText | src/churnpulse/report.py:34-50 | `"".join(md)` of those pieces. `Report.ReportSections`, `ReportStartsWithHeader`, `MetricLineInPlace`, `FigureInPlace`, `ReportEndsWithNotes` and `EmptyReport` state its layout. |
| Report.Join | src/churnpulse/report.py:50 | `"".join(md)`: the pieces concatenated in order. `Report.JoinConcat` states that it splits over concatenated runs of pieces. |
| Report.MetricLines | src/churnpulse/report.py:37-38 | One bullet per metric, in the metrics' order, one piece per metric. `Report.MetricsBlockAppend` and `MetricLineInPlace` state it. |
| Report.FigureLines | src/churnpulse/report.py:41-43 | Each figure's heading and image line, in the figures' order, two pieces per figure. `Report.FigureBlockOne`, `FiguresBlockAppend` and `FigureInPlace` state it. |
| Report.MetricsBlock | src/churnpulse/report.py:37-38 | The text of the metric bullets. `Report.ReportSections` places it after the Metrics heading, and `MetricsBlockAppend` splits it. |
| Report.FiguresBlock | src/churnpulse/report.py:40-43 | The text of the figure entries. `Report.ReportSections` places it after the Figures heading, and `FiguresBlockAppend` splits it. |
| Report.NotesBlock | src/churnpulse/report.py:45-48 | The text of the notes section. `Report.NotesText` spells it out, and `ReportEndsWithNotes` puts it at the end of every report. |
| Report.MetricLine | src/churnpulse/report.py:38 | `f"- **{k}**: {v}\n"`. `Report.MetricIsOneLine` and `MetricLineInPlace` state its use. |
| Report.FigureHeading | src/churnpulse/report.py:42 | `f"### {title}\n"`. `Report.FigureBlockOne` and `FigureInPlace` place it. |
| Report.FigureLink | src/churnpulse/report.py:43 | `f"![{title}]({relpath})\n"`, right after the figure's heading (`Report.FigureBlockOne`). |
| Report.JoinConcat | src/churnpulse/report.py:50 | `"".join` of two runs of pieces is the join of each, concatenated. |
| Report.ReportSections | src/churnpulse/report.py:34-50 | The report is the title, the Metrics heading, the metric bullets, the Figures heading, the figure entries and the notes, in that order. |
| Report.NotesText | src/churnpulse/report.py:45-48 | The notes section is its heading followed by the three fixed bullets. |
| Report.FigureBlockOne | src/churnpulse/report.py:41-43 | One figure contributes its `### title` line followed by its image line. |
| Report.ReportStartsWithHeader | src/churnpulse/report.py:35-36 | The report begins with `"# ChurnPulse Report\n\n## Metrics\n"`. |
| Report.MetricLineInPlace | src/churnpulse/report.py:37-40 | Metric i's line `- **k**: v\n` follows the lines of the metrics before it. Every metric line precedes the Figures heading. |
| Report.FigureInPlace | src/churnpulse/report.py:40-43 | After `"\n## Figures\n"`, figure j contributes `### title\n` and then `![title](relpath)\n`, after the earlier figures and before the notes. |
| Report.ReportEndsWithNotes | src/churnpulse/report.py:45-48 | Whatever the inputs, the report ends with the notes heading and the three fixed bullets. |
| Report.EmptyReport | src/churnpulse/report.py:34-50 | With no metrics and no figures, the report is exactly the header, the two headings and the notes. |
| Report.MetricsBlockAppend | src/churnpulse/report.py:37-38 | The bullets of two runs of metrics are the bullets of each, concatenated. |
| Report.FiguresBlockAppend | src/churnpulse/report.py:41-43 | The same holds for figure entries. |
| Report.MetricIsOneLine | src/churnpulse/report.py:38 | A metric whose name and value hold no line break produces exactly one line. |
| Data.Frame.Copy | src/churnpulse/data.py:14 | The copy has the same columns and rows. |
| Data.Frame.StripColumnNames | src/churnpulse/data.py:17 | The new columns are `StripNames` of the old ones; the row count is unchanged. |
| Data.StripNames | src/churnpulse/data.py:17 | Column i is renamed to its stripped name and keeps its cells. |
| Data.Frame.DropUnnamedColumns | src/churnpulse/data.py:20 | The new columns are the old ones without those whose name starts with `Unnamed`, in order. |
| Data.RenamedOrder | src/churnpulse/data.py:17-20 | Surviving names keep the stripped names' order. |
| Data.RenamedNoUnnamed | src/churnpulse/data.py:20 | No surviving name starts with `Unnamed`. |
| Data.IsUnnamed | src/churnpulse/data.py:20 | `str.match(r"^Unnamed")`: the name starts with `Unnamed`. `Data.RenamedNoUnnamed` and `RenamedKeepsNamed` state the filter built on it. |
| Data.Named | src/churnpulse/data.py:20 | The `~…str.match(r"^Unnamed")` mask on one column: it survives the filter. |
| Data.Renamed | src/churnpulse/data.py:17-20 | The columns after the strip and the `Unnamed` filter. `Data.RenamedOrder`, `RenamedNoUnnamed`, `RenamedKeepsNamed`, `RenamedFromOriginal` and `TargetPresence` state it. |
| Data.RenamedKeepsNamed | src/churnpulse/data.py:20 | Every stripped name that does not start with `Unnamed` survives. |
| Data.RenamedFromOriginal | src/churnpulse/data.py:17-20 | Every surviving name is some original column's stripped name. |
| Data.CoerceCell | src/churnpulse/data.py:24 | Numbers stay. Text becomes its parsed number, or missing when it does not parse. Missing stays missing. No text is left. |
| Data.CoerceSeries | src/churnpulse/data.py:24 | Each cell of a column is coerced on its own; name and length are kept. |
| Data.CoerceColumnsShape | src/churnpulse/data.py:23-24 | Coercion keeps every name and length and coerces each cell on its own. |
| Data.CoerceColumns | src/churnpulse/data.py:23-24 | `pd.to_numeric(df[c], errors="coerce")` for every column, when no name is shared. `Data.CoerceColumnsShape` states it, and `Frame.CoerceNumeric` and `CoerceLoop` are proved to compute it. |
| Data.Prepared | src/churnpulse/data.py:17-24 | The renamed, filtered and coerced columns that the target check sees. `Data.CleanMissingTarget` and `CleanColumns` state what `Clean` does with them. |
| Data.Frame.CoerceNumeric | src/churnpulse/data.py:23-24 | If no name is shared, every column is coerced. Otherwise the loop stops at the first column whose name is shared and reports that name; columns before it are coerced and the rest are untouched. |
| Data.CoerceLoop | src/churnpulse/data.py:23-24 | The coercion loop on the column list: with no shared name every column is coerced; otherwise it stops at the first shared name and reports it, with the columns before it coerced and the rest untouched. Row counts are kept. |
| Data.DuplicateFrom | src/churnpulse/data.py:23-24 | Finds the first column whose name another column also has, or reports that there is none. |
| Data.Duplicated | src/churnpulse/data.py:24 | Another column has the same name, so `df[c]` selects a DataFrame and `pd.to_numeric` raises. `Data.DuplicateFrom` and `CleanDuplicate` state where cleaning stops. |
| Data.TargetIndex | src/churnpulse/data.py:26 | Finds a column named `PRICE`; none is found iff `PRICE` is not a column name. |
| Data.KeptRows | src/churnpulse/data.py:32 | Lists, in increasing order, exactly the rows whose target cell is present. |
| Data.SelectRows | src/churnpulse/data.py:32 | Picks the cells at the given rows, in the given order. |
| Data.DropRows | src/churnpulse/data.py:32 | Cuts every column down to the given rows; names are kept. |
| Data.Frame.DropRowsMissing | src/churnpulse/data.py:32 | The new columns are the old ones cut to the rows whose target is present; the row count becomes their number. |
| Data.KeptRowsOfTarget | src/churnpulse/data.py:23-32 | A row is kept iff its raw `PRICE` cell is neither missing nor text that fails to parse. Kept rows stay in their original order. |
| Data.FillCells | src/churnpulse/data.py:36 | Present cells stay. Missing cells take the fill value when there is one. Without a fill value the column is unchanged. |
| Data.FillFeaturesShape | src/churnpulse/data.py:35-36 | Names and lengths are kept. The `PRICE` column is unchanged. Every other column is filled with its own median. |
| Data.FillSeries | src/churnpulse/data.py:35-36 | One column after the fill: `PRICE` as it was, any other column filled with its own median. `Data.FillFeaturesShape` states it. |
| Data.FillFeatures | src/churnpulse/data.py:35-36 | The fill on every column. `Data.FillFeaturesShape` states it, and `Frame.FillFeatureColumns` is proved to compute it. |
| Data.Frame.FillFeatureColumns | src/churnpulse/data.py:35-36 | The new columns are `FillFeatures` of the old ones; the row count is unchanged. |
| Data.DropThenFill | src/churnpulse/data.py:32-36 | After the row drop and the fill: the `PRICE` column is its kept cells and has no missing cell. Each feature column is its kept cells filled with the median of those cells. |
| Data.CleanNames | src/churnpulse/data.py:13-38 | The cleaned table's names are the stripped names without those starting with `Unnamed`, in order. |
| Data.CleanDuplicate | src/churnpulse/data.py:23-24 | Cleaning fails on a shared name iff two surviving columns share a name. The reported name is such a name. |
| Data.CleanMissingTarget | src/churnpulse/data.py:17-29 | With no shared name, cleaning reports a missing target iff no column's stripped name is `PRICE`. The error lists the cleaned column names. |
| Data.CleanSucceeds | src/churnpulse/data.py:23-29 | With no shared name among the surviving columns and some column that strips to `PRICE`, cleaning succeeds. |
| Data.Clean | src/churnpulse/data.py:13-38 | `clean_boston` on values: rename, drop `Unnamed…`, coerce (failing on a shared name), require `PRICE`, drop rows without a price, fill features with their median. Its outcomes are stated by `Data.CleanNames`, `CleanDuplicate`, `CleanMissingTarget`, `CleanSucceeds` and `CleanColumns`. |
| Data.TargetPresence | src/churnpulse/data.py:17-26 | `PRICE` survives renaming iff some column strips to it. |
| Data.PaddedTargetIsFound | src/churnpulse/data.py:17-29 | A column named `" PRICE "` satisfies the target check. |
| Data.CleanColumns | src/churnpulse/data.py:32-36 | On success, the table has the prepared columns' names and the kept rows. The `PRICE` column is its kept cells, with no missing cell. Each feature column is filled with the median of its kept cells. |
| Data.CleanBoston | src/churnpulse/data.py:13-38 | Works on a fresh copy and leaves the caller's frame unchanged. It succeeds iff `Clean` does. The result is `Clean`'s table or `Clean`'s error. |

## Left out

- The rest of `train`: model fitting, the train/test split, metrics, the 0.5 threshold, and the artifact and report writes. These are scikit-learn work, floating point and file I/O. `pipeline.py`, `api.py`, `cli.py`, `config.py`, `load_csv`, `plot_roc`, `plot_confusion` and `save_json` are not part of this model.
- Report.WriteMarkdownReport: the directory creation and the `write_text` call are left out. The method returns the text that would be written.
- Text.Strip and Text.Lower: only ASCII whitespace and ASCII letters are modelled. Python also strips Unicode spaces and lower-cases non-ASCII letters.
- Train.ToBinary: numbers are exact reals, so `astype(float)` and NaN are not modelled. In the source a NaN label maps to 0. The column's dtype family is given by the `Values` constructor rather than detected. A missing value in a text column reaches the source as the string `"nan"` and is unrecognised in both.
- Train.ToBinary: the error is modelled as the list of offending values. The message text around it is not modelled. Both errors are plain `ValueError` in the code.
- Train.Lookup: with two columns of the same name, pandas would select both. The model takes the first.
- Data.CoerceCell: how `pd.to_numeric` parses text is the `parse` parameter.
- Data.FillCells: the median is the `median` parameter. Its value is not modelled, only that it fills the feature columns and never `PRICE`.
- Data.Clean: the error for a missing `PRICE` is modelled as the list of cleaned names, not the message text. The shared-name failure stands for the `TypeError` pandas raises when `df[c]` selects several columns. That `TypeError` names no column: the name carried by `DuplicateColumn`, and reported by `Data.Frame.CoerceNumeric`, `CoerceLoop` and `CleanDuplicate`, is the model's own addition.
- Data.Cell: bool cells and non-string column names are not modelled. Rows are identified by position; pandas' index labels are not modelled.

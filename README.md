# Wireshark K-means pipeline: a verified model

This project models three Python variants of one pipeline. In each, a Wireshark
packet-summary CSV export becomes a table of cells, the cells become numeric features,
scikit-learn clusters the feature rows, and the labels and distances that come back are
turned into anomaly scores, cluster summaries and anomaly lists.

- **The enhanced backend** (`wireshark_kmeans_backend_enhanced.py`):
  - the fallback CSV reader used when pandas fails: a quote-tracking character loop, then padding or truncating each row to the header width;
  - the column renames and defaults;
  - the fifteen column-wise features;
  - the analyzer object: `perform_analysis`, `get_cluster_summary` and the per-packet rows of `export_results`.
- **The command-line analyzer** (`wiresharkanalyzer.py`):
  - input-path selection;
  - the load-time check that the file looks like a Wireshark export, and sampling;
  - the four `extract_*` steps and `prepare_features`;
  - what `analyze_clusters` and `detect_anomalies` compute before they print.
- **The minimal backend** (`wireshark_kmeans_backend_minimal.py`), an analyzer object with `labels`, `anomaly_scores` and `features` fields:
  - `load_data`;
  - the row loop of `extract_features`;
  - the normalisation of `perform_clustering`;
  - `analyze_clusters`;
  - `detect_anomalies` with its duplicate check;
  - the assembly in `generate_results`.

Each variant is modelled on its own terms, in its own module. A separate module, `Variants`, proves how the variants differ:

- the private-address test: the analyzer accepts only `172.16.`, the backends accept `172.16.` to `172.31.`;
- the protocol table: only the minimal one knows ARP;
- a missing time;
- the all-equal case of score normalisation.

Modules:

| module | contents |
|---|---|
| `Wrappers` | `Option` and `Result` |
| `Text` | prefix and substring tests (what the regular expressions reduce to), ASCII case mapping, `str.strip`, the decimal reading of `to_numeric` / `float()` |
| `Counting` | occurrence counts, distinct values, the `value_counts()` order, `head(n)`, min, max, sum, count above a threshold, positions of a mask |
| `Table` | cells (`NA` for NaN or text), frames, column lookup, missing-column lists, `mean`, `max` |
| `Clusters` | cluster sizes from labels (`np.unique` with counts), their total, the small-cluster rule |
| `Scores` | nearest-centre distance per row, min-max rescaling |
| `CsvFallback` | the enhanced fallback reader (imperative: character loop, padding loop, row loop) |
| `EnhancedIngest` | renames, `range()` defaults, `fillna`, and `process_wireshark_csv` choosing pandas or the fallback |
| `EnhancedFeatures` | `extract_features` of the enhanced backend (pure, column-wise) |
| `EnhancedAnalysis` | the enhanced analyzer object (`class KmeansAnalyzer`) |
| `Analyzer` | the command-line analyzer (pure) |
| `Minimal` | the minimal backend (`class MinimalAnalyzer`, loop-based methods) |
| `Variants` | lemmas relating the three variants |

The model has no floats:

- Numbers are `real`, produced by a small decimal reader: an optional sign, then digits with an optional decimal point.
- The rule `count < total * 0.05` is stated as `20 * count < total`, which is exact for whole counts.
- What scikit-learn returns is a parameter of the operation that uses it: the labels, the distance matrix and the silhouette value.
- `np.percentile` and `quantile` are parameters too (the thresholds).
- `value_counts()` order is modelled as any ordering that lists each distinct value once, a more frequent value first, because the order among equal counts is left to pandas. `Counting.ValueCounts` gives one such ordering, with a proof.

Facts about the code that shape the model:

- **Thresholds.** The high-anomaly threshold is the 90th (enhanced backend) or 95th (minimal backend) percentile of the scores.
- **Errors from clustering.**
  - The clustering raises when there are fewer rows than k, and KMeans raises when k < 1.
  - The minimal backend's `silhouette_score` raises when every row has a label of its own.
- **Missing values.**
  - The minimal backend reads a missing time as 0.
  - The enhanced backend reads a missing or unparsable time as 0.
  - In the analyzer, a missing time makes the difference NaN, which becomes 0.
  - The enhanced protocol default is `unknown` in lower case.
- **Column names and rows.**
  - Column names are matched exactly, character for character.
  - The fallback reader pads every row with empty fields, or cuts it, to the header's width.
  - The minimal backend's `float()` raises on a non-numeric Length or Time.
- **Private addresses.** The analyzer's private-address test accepts `10.`, `172.16.` and `192.168.`.
- **Features.**
  - The feature vectors have 15 (enhanced), 9 (analyzer) or 10 (minimal) entries.
  - The enhanced backend's size buckets are cut at 100 and 1000 bytes.
- **Scores.** The raw score is the minimum over each row of KMeans' distance matrix.

## Model

| member | source | states |
|---|---|---|
| CsvFallback.Fields | wireshark_kmeans_backend_enhanced.py:99-108 | a line always yields at least one field: a quote toggles the quote state and is dropped, a comma outside quotes ends a field |
| CsvFallback.FieldsHaveNoQuotes | wireshark_kmeans_backend_enhanced.py:99-111 | no field the scan yields contains a double quote |
| CsvFallback.FieldsJoinToDequoted | wireshark_kmeans_backend_enhanced.py:99-108 | joining the fields with commas gives back the line minus its double quotes |
| CsvFallback.QuotedAtStep | wireshark_kmeans_backend_enhanced.py:100-103 | after a double quote the quote state is flipped; any other character keeps it |
| CsvFallback.FieldCountFrom | wireshark_kmeans_backend_enhanced.py:99-108 | from any position on, the fields still to come number the unquoted commas left plus one |
| CsvFallback.FieldCount | wireshark_kmeans_backend_enhanced.py:99-111 | before padding, a line yields exactly one field more than it has commas outside quoted spans |
| CsvFallback.QuotedCommaStaysInField | wireshark_kmeans_backend_enhanced.py:99-108 | `a,"b,c",d` yields exactly `["a", "b,c", "d"]` |
| CsvFallback.Dequote | wireshark_kmeans_backend_enhanced.py:100-103 | the reference definition of a line with its quotes removed has no quote left |
| CsvFallback.SplitOn | wireshark_kmeans_backend_enhanced.py:92 | `str.split(sep)` yields at least one piece, and no piece contains the separator |
| CsvFallback.SplitOnJoin | wireshark_kmeans_backend_enhanced.py:92 | joining the pieces with the separator gives the string back |
| CsvFallback.SplitOnCount | wireshark_kmeans_backend_enhanced.py:92 | there is one piece more than there are separators |
| CsvFallback.FieldsWithoutQuotes | wireshark_kmeans_backend_enhanced.py:99-108 | on a line with no quotes, the fallback splits exactly where `split(',')` does |
| CsvFallback.HeaderNames | wireshark_kmeans_backend_enhanced.py:92 | the stripped header line split at commas has at least one name |
| CsvFallback.Finished | wireshark_kmeans_backend_enhanced.py:110-111 | appending the stripped last field keeps the number of fields |
| CsvFallback.FinishedHasNoQuotes | wireshark_kmeans_backend_enhanced.py:105-111 | stripping the last field cannot introduce a quote |
| CsvFallback.Fit | wireshark_kmeans_backend_enhanced.py:113-116 | the row has exactly `width` fields: field i is the scanned one when there is one, else "" |
| CsvFallback.StepComma | wireshark_kmeans_backend_enhanced.py:104-106 | a comma outside quotes closes the current field and starts an empty one |
| CsvFallback.StepChar | wireshark_kmeans_backend_enhanced.py:107-108 | any other non-quote character extends the current field |
| CsvFallback.ScanLine | wireshark_kmeans_backend_enhanced.py:95-111 | the character loop appends exactly the line's fields, with the last one whitespace-stripped |
| CsvFallback.SplitRow | wireshark_kmeans_backend_enhanced.py:95-118 | one data line becomes a row of exactly `len(header)` fields, none holding a quote: the scanned fields, padded or cut |
| CsvFallback.SplitRows | wireshark_kmeans_backend_enhanced.py:93-118 | one row per data line, in order, each exactly `width` fields long |
| CsvFallback.FromRows | wireshark_kmeans_backend_enhanced.py:121 | `pd.DataFrame(lines, columns=header)`: column j of row r holds field j of line r |
| CsvFallback.FromRowsNoMissing | wireshark_kmeans_backend_enhanced.py:121 | a frame built from text rows has no missing cell |
| CsvFallback.FallbackFrame | wireshark_kmeans_backend_enhanced.py:89-121 | the reference frame: names from the header, one row per data line, cell (j, r) is field j of line r after fitting, and no cell is missing |
| CsvFallback.ReadFallback | wireshark_kmeans_backend_enhanced.py:89-121 | the reading loops build exactly the reference frame: names from the header, one row per data line, cell (j, r) is field j of line r after fitting, no cell missing |
| Text.Trim | wireshark_kmeans_backend_enhanced.py:111 | `strip`: the result is a slice of the input with only strippable characters cut off on either side, it starts and ends with a kept character, holds only characters of the input, loses no kept character, and changes nothing when nothing is strippable |
| Text.TrimSlice | wireshark_kmeans_backend_enhanced.py:111 | the stripped text is a slice of the input outside which every character is strippable |
| Text.TrimEnds | wireshark_kmeans_backend_enhanced.py:111 | the stripped slice starts and ends with a kept character |
| Text.TrimFrom | wireshark_kmeans_backend_enhanced.py:111 | every character of the stripped slice comes from the input |
| Text.TrimKeeps | wireshark_kmeans_backend_enhanced.py:111 | no character that is not stripped is lost |
| Text.TrimNothing | wireshark_kmeans_backend_enhanced.py:111 | a string with nothing to strip is unchanged |
| Text.FirstKept | wireshark_kmeans_backend_enhanced.py:111 | the first kept position from i on: every skipped character is strippable |
| Text.LastKept | wireshark_kmeans_backend_enhanced.py:111 | the end after dropping trailing strippable characters: the one before it is kept |
| Text.ParseNumber | wireshark_kmeans_backend_enhanced.py:165 | `to_numeric(errors='coerce')` of a text: the empty text is NaN |
| Text.ParseUnsigned | wireshark_kmeans_backend_enhanced.py:165 | an unsigned decimal reads as a value of at least 0 |
| Text.FractionValue | wireshark_kmeans_backend_enhanced.py:165 | the digits after a decimal point read as a value in [0, 1) |
| Text.NatText | wireshark_kmeans_backend_enhanced.py:70 | `str(n)` is a non-empty string of digits |
| Text.DigitsValueOfNatText | wireshark_kmeans_backend_enhanced.py:70 | reading the digits of `str(n)` gives n back |
| Text.ParseNatText | wireshark_kmeans_backend_enhanced.py:70-72 | `to_numeric` of `str(n)` is n: the `range()` defaults read back as their numbers |
| Text.ParseNegatedNatText | wireshark_kmeans_backend_enhanced.py:165 | a minus sign before `str(n)` reads as -n |
| Text.Find | wireshark_kmeans_backend_enhanced.py:165 | the first decimal point's position, or the length when there is none |
| Text.Lower | wireshark_kmeans_backend_enhanced.py:198-201 | lower-casing keeps the length |
| Text.Upper | wireshark_kmeans_backend_enhanced.py:204-207 | upper-casing keeps the length |
| Text.UpperEqualsIff | wireshark_kmeans_backend_enhanced.py:204 | `s.upper() == "TCP"` holds exactly when s equals TCP up to the case of ASCII letters |
| Text.LowerOfUpper | wiresharkanalyzer.py:171 | lower-casing forgets an earlier upper-casing |
| Text.ContainsAt | wiresharkanalyzer.py:176-186 | a word found at some position makes the search succeed |
| Text.ContainsWitness | wiresharkanalyzer.py:176-186 | a successful search has a position where the word occurs |
| Text.ContainsHasChar | wiresharkanalyzer.py:176 | a text that holds a word holds every character of the word |
| Text.DigitChar | wireshark_kmeans_backend_enhanced.py:70 | the digit character of d is a digit worth d |
| EnhancedIngest.RenameWithLookup | wireshark_kmeans_backend_enhanced.py:64-66 | with distinct old names and no new name that is also an old one, the renames in sequence map each old name to its new name and leave other names alone |
| EnhancedIngest.AliasSpec | wireshark_kmeans_backend_enhanced.py:53-66 | each of the seven display names becomes its internal name; any other name stays |
| EnhancedIngest.RenameColumns | wireshark_kmeans_backend_enhanced.py:63-66 | the rename loop keeps the number and order of columns and renames each as the alias table says |
| EnhancedIngest.AddColumnIfMissing | wireshark_kmeans_backend_enhanced.py:69-72 | an existing column leaves the frame unchanged; otherwise exactly the new column is appended |
| EnhancedIngest.Counter | wireshark_kmeans_backend_enhanced.py:70-72 | `range(start, start + n)` whose cells read back as start + r |
| EnhancedIngest.AddDefaults | wireshark_kmeans_backend_enhanced.py:69-72 | afterwards both columns exist and the existing columns are kept. A missing `frame_number` reads 1..n; a missing `timestamp` reads 0..n-1 |
| EnhancedIngest.FillMissing | wireshark_kmeans_backend_enhanced.py:74-80 | no cell of the five packet columns stays missing. A missing one gets its column's default (`unknown`, `0` or `""`); every other cell is unchanged |
| EnhancedIngest.FillMissingIdempotent | wireshark_kmeans_backend_enhanced.py:74-80 | filling twice is filling once |
| EnhancedIngest.FillMissingNoop | wireshark_kmeans_backend_enhanced.py:74-80 | a frame with no missing cell is left as it is |
| EnhancedIngest.Normalized | wireshark_kmeans_backend_enhanced.py:63-80 | the normalised frame is well formed and keeps the row count |
| EnhancedIngest.NormalizeColumns | wireshark_kmeans_backend_enhanced.py:63-80 | the three steps produce the normalised frame; `frame_number` and `timestamp` exist afterwards |
| EnhancedIngest.ProcessWiresharkCsv | wireshark_kmeans_backend_enhanced.py:42-158 | the pandas frame, normalised, when pandas read it. Otherwise, when the file is readable, exactly the fallback reader's frame, normalised: it has one row per data line and no missing cell. Otherwise None |
| EnhancedIngest.FallbackHasNoMissing | wireshark_kmeans_backend_enhanced.py:136-152 | normalising a fallback frame keeps it free of missing cells |
| EnhancedIngest.AddColumnKeepsNoMissing | wireshark_kmeans_backend_enhanced.py:141-144 | adding a text column keeps a frame free of missing cells |
| EnhancedFeatures.Top | wireshark_kmeans_backend_enhanced.py:171 | `index[:20]`: the first min(20, n) values of the order |
| EnhancedFeatures.ProtocolCode | wireshark_kmeans_backend_enhanced.py:171-172 | the code is a rank in 0..19 or 999; it is 999 exactly when the protocol is missing or outside the top 20; a rank names the protocol's place in the order |
| EnhancedFeatures.MoreFrequentSmallerCode | wireshark_kmeans_backend_enhanced.py:168-172 | for any `value_counts` order, a strictly more frequent protocol gets a strictly smaller code than a coded one |
| EnhancedFeatures.RareCodeMeansOutranked | wireshark_kmeans_backend_enhanced.py:168-172 | a present protocol coded 999 means more than 20 protocols occur and each coded one is at least as frequent |
| EnhancedFeatures.ProtocolCodes | wireshark_kmeans_backend_enhanced.py:168-172 | one code per packet, each in 0..19 or 999 |
| EnhancedFeatures.TimeNormalized | wireshark_kmeans_backend_enhanced.py:177 | one normalised time per packet |
| EnhancedFeatures.TimeNormalizedInUnit | wireshark_kmeans_backend_enhanced.py:177 | every normalised time lies in [0, 1], since the divisor is max(range, 1) |
| EnhancedFeatures.TimeNormalizedAt | wireshark_kmeans_backend_enhanced.py:177 | the same for one packet |
| EnhancedFeatures.TimeDeltas | wireshark_kmeans_backend_enhanced.py:178 | `diff().fillna(0)` of parsed times: 0 first, then t[i] - t[i-1] |
| EnhancedFeatures.TimeDeltasTelescope | wireshark_kmeans_backend_enhanced.py:178 | the deltas add up to the last time minus the first |
| EnhancedFeatures.TwoDigitText | wireshark_kmeans_backend_enhanced.py:185 | a two-digit number is written as its two digits |
| EnhancedFeatures.EnhancedLocalIff | wireshark_kmeans_backend_enhanced.py:184-192 | local exactly when the address starts with `10.`, `192.168.` or `172.N.` for N from 16 to 31 |
| EnhancedFeatures.EnhancedLocalExamples | wireshark_kmeans_backend_enhanced.py:184-192 | `100.0.0.1` and `172.32.0.1` are not local; `172.31.255.1` and `10.0.0.1` are |
| EnhancedFeatures.LocalFlag | wireshark_kmeans_backend_enhanced.py:184-192 | the flag is 0 or 1, and 1 exactly for a present local address (`na=False`) |
| EnhancedFeatures.InfoFlags | wireshark_kmeans_backend_enhanced.py:194-201 | `has_port_info` is 1 exactly when a digit, a space and an arrow appear in a row; `has_error` is 1 exactly when an error word appears, ignoring case; a missing Info sets neither |
| EnhancedFeatures.HttpFlag | wireshark_kmeans_backend_enhanced.py:206 | `is_http` is a case-sensitive substring test for HTTP |
| EnhancedFeatures.SameUpper | wireshark_kmeans_backend_enhanced.py:204-207 | `is_tcp` / `is_udp` / `is_dns` are 1 exactly when the upper-cased protocol equals the name |
| EnhancedFeatures.HttpsCountsAsHttp | wireshark_kmeans_backend_enhanced.py:206 | `HTTPS` counts as HTTP; `http` does not |
| EnhancedFeatures.TcpIgnoresCase | wireshark_kmeans_backend_enhanced.py:204 | `tcp` and `Tcp` count as TCP |
| EnhancedFeatures.SizeBuckets | wireshark_kmeans_backend_enhanced.py:210-212 | exactly one bucket is set: small below 100, medium from 100 to below 1000, large from 1000 on |
| EnhancedFeatures.Numbers | wireshark_kmeans_backend_enhanced.py:165 | `to_numeric(...).fillna(0)` of each cell of a column |
| EnhancedFeatures.TimeFeatures | wireshark_kmeans_backend_enhanced.py:175-181 | normalised times lie in [0, 1]. The first delta is 0 and later ones are gaps between parsed times, with an unparsable time read as 0. Without a timestamp column, both features are 0 |
| EnhancedFeatures.PacketFeatures | wireshark_kmeans_backend_enhanced.py:165-212 | one packet's row: its length, code, time features, address flags, port-info and error flags, TCP, UDP, HTTP and DNS flags, and exactly one size bucket by the 100 and 1000 byte cut points |
| EnhancedFeatures.ExtractFeatures | wireshark_kmeans_backend_enhanced.py:160-217 | a KeyError exactly when one of the five looked-up columns is missing, and it names a missing column; otherwise one row per packet |
| EnhancedFeatures.FeatureRows | wireshark_kmeans_backend_enhanced.py:162-212 | one feature row per packet |
| EnhancedFeatures.ExtractFeaturesRow | wireshark_kmeans_backend_enhanced.py:160-212 | row i is packet i's PacketFeatures with its protocol code and time features. The code is the protocol's rank in the `value_counts()` order, or 999 exactly when the protocol is missing or outside the top 20. The normalised time is in [0, 1] and the delta is the gap between parsed times. All eight flags are their tests on the packet's cells, and the size bucket follows the 100 / 1000 cut points |
| Scores.RowMins | wireshark_kmeans_backend_enhanced.py:232-233 | each score is the distance row's minimum: an entry of the row, and no entry is smaller |
| Scores.Rescale | wireshark_kmeans_backend_enhanced.py:239 | rescaling keeps the number of scores |
| Scores.RescaleAt | wireshark_kmeans_backend_enhanced.py:239 | a score within [lo, hi] rescales into [0, 1], lo to 0 and hi to 1 |
| Scores.RescaleOrder | wireshark_kmeans_backend_enhanced.py:239 | rescaling keeps strict order and equality of any two scores, both ways |
| Scores.RescaleSpec | wireshark_kmeans_backend_enhanced.py:236-239 | by the scores' own min and max: all in [0, 1], the minimum at 0, the maximum at 1, order kept both ways |
| Scores.DivInUnit | wireshark_kmeans_backend_enhanced.py:177 | x / d lies in [0, 1] for 0 <= x <= d |
| Scores.DivSelf | wireshark_kmeans_backend_enhanced.py:239 | the maximum divided by the range is 1 |
| EnhancedAnalysis.NormalizeEnhanced | wireshark_kmeans_backend_enhanced.py:236-239 | the normalisation keeps the number of scores |
| EnhancedAnalysis.NormalizeEnhancedSpec | wireshark_kmeans_backend_enhanced.py:236-239 | with n > 1 and max > min, scores lie in [0, 1], min at 0, max at 1, order kept both ways; otherwise they are unchanged |
| EnhancedAnalysis.KmeansAnalyzer.constructor | wireshark_kmeans_backend_enhanced.py:34-40 | k is stored and no analysis exists yet |
| EnhancedAnalysis.KmeansAnalyzer.PerformAnalysis | wireshark_kmeans_backend_enhanced.py:219-247 | rejected, changing nothing, exactly when there are fewer rows than k (or k < 1). Otherwise the labels, the features and the normalised row-minimum scores are stored and returned |
| EnhancedAnalysis.KmeansAnalyzer.GetClusterSummary | wireshark_kmeans_backend_enhanced.py:249-280 | None exactly before an analysis. Otherwise: packet count and k; the size of every occurring cluster, ascending; the mean score; the threshold; the count of scores strictly above it; the clusters under 5% |
| EnhancedAnalysis.CountLabels | wireshark_kmeans_backend_enhanced.py:267 | the count of every label below k |
| EnhancedAnalysis.SizesFromCounts | wireshark_kmeans_backend_enhanced.py:267-269 | the labels that occur, ascending, with their counts |
| EnhancedAnalysis.SmallClusters | wireshark_kmeans_backend_enhanced.py:272-276 | the loop yields the labels of the clusters under 5% of the packets, in order |
| EnhancedAnalysis.KmeansAnalyzer.ExportRows | wireshark_kmeans_backend_enhanced.py:497-519 | a ValueError exactly before an analysis; otherwise row i is packet i + 1 with its label and score, flagged exactly when the score exceeds the threshold |
| EnhancedAnalysis.FlaggedCountsAbove | wireshark_kmeans_backend_enhanced.py:512-519 | the flagged rows number as many as the scores strictly above the threshold |
| EnhancedAnalysis.ExportAgreesWithSummary | wireshark_kmeans_backend_enhanced.py:255-276 | the exported flags agree with `high_anomaly_count`, and the cluster sizes add up to `total_packets` |
| Clusters.SizesBelow | wireshark_kmeans_backend_enhanced.py:267 | every entry is an occurring label below m with its exact, positive count; entries ascend by label |
| Clusters.SizesListEntries | wireshark_kmeans_backend_enhanced.py:267 | each entry of the recursive list is such a label with its count |
| Clusters.SizesListAscending | wireshark_kmeans_backend_enhanced.py:267 | its labels ascend |
| Clusters.SizesBelowComplete | wireshark_kmeans_backend_enhanced.py:267 | every occurring label below m has its entry |
| Clusters.SumCountsAppendOne | wireshark_kmeans_backend_enhanced.py:269 | appending an entry adds its count to the total |
| Clusters.CountBelow | wireshark_kmeans_backend_enhanced.py:255 | the number of labels below m is at most the number of labels |
| Clusters.CountBelowStep | wireshark_kmeans_backend_enhanced.py:267 | the labels below m are those below m - 1 plus the label m - 1 |
| Clusters.CountBelowAll | wireshark_kmeans_backend_enhanced.py:255 | when every label is below m, all of them count |
| Clusters.CountBelowAllIff | wiresharkanalyzer.py:232-235 | all labels count exactly when every label is below m |
| Clusters.CountBelowZero | wireshark_kmeans_backend_enhanced.py:255 | no non-negative label is below 0 |
| Clusters.SumCountsBelow | wireshark_kmeans_backend_enhanced.py:267-269 | the sizes of labels below m add up to the number of such labels |
| Clusters.SumCountsBelowStep | wireshark_kmeans_backend_enhanced.py:267-269 | the induction step of that total |
| Clusters.ClusterSizesSum | wireshark_kmeans_backend_enhanced.py:255-269 | with labels below k, the reported sizes add up to the number of packets |
| Clusters.SmallOf | wireshark_kmeans_backend_enhanced.py:272-276 | a label is listed exactly when its cluster's entry has fewer than 5% of the packets |
| Counting.Count | wireshark_kmeans_backend_enhanced.py:267 | a count of at most the length, positive exactly for values that occur |
| Counting.CountAppend | wireshark_kmeans_backend_enhanced.py:267 | counts add over concatenation |
| Counting.CountSnoc | wireshark_kmeans_backend_enhanced.py:267 | appending a value adds one to its count only |
| Counting.IndexOf | wireshark_kmeans_backend_enhanced.py:171 | the first position of a value, the length when absent |
| Counting.IndexOfAppend | wireshark_kmeans_backend_enhanced.py:69-72 | appending keeps the position of a value already there |
| Counting.IndexOfAppendNew | wireshark_kmeans_backend_enhanced.py:69-72 | a new value is found after the old ones |
| Counting.Distinct | wiresharkanalyzer.py:232 | the distinct values: each once, exactly the values that occur |
| Counting.RankedBefore | wireshark_kmeans_backend_enhanced.py:171 | in a count order, a strictly more frequent value comes strictly earlier |
| Counting.InsertByCount | wireshark_kmeans_backend_enhanced.py:168 | inserting by count keeps distinctness and a nonincreasing order |
| Counting.SortByCount | wireshark_kmeans_backend_enhanced.py:168 | the sort keeps the values and yields a nonincreasing order |
| Counting.ValueCountsIsCountOrder | wireshark_kmeans_backend_enhanced.py:168 | `ValueCounts` is a valid `value_counts()` order: each value once, more frequent first |
| Counting.TopCounts | wiresharkanalyzer.py:240 | `head(n)` has min(n, number of values) entries |
| Counting.DistinctOfNoDuplicates | wiresharkanalyzer.py:232 | `np.unique` of labels that are all different keeps every label |
| Counting.SameValuesSameLength | wiresharkanalyzer.py:240 | two duplicate-free lists of the same values are equally long, so any `value_counts()` index has one entry per distinct value |
| Counting.TopCountsSound | wiresharkanalyzer.py:240 | for any count order, `head(n)`: min(n, number of distinct values) distinct values with exact counts, most frequent first, and no left-out value more frequent |
| Counting.MinOf | wireshark_kmeans_backend_enhanced.py:237 | `np.min`: an entry no greater than any entry |
| Counting.MaxOf | wireshark_kmeans_backend_enhanced.py:237 | `np.max`: an entry no smaller than any entry |
| Counting.SumAppend | wireshark_kmeans_backend_enhanced.py:259 | sums add over concatenation |
| Counting.CountAbove | wireshark_kmeans_backend_enhanced.py:262 | `np.sum(s > t)`: 0 exactly when no score exceeds t, the length exactly when all do |
| Counting.CountAboveSnoc | wireshark_kmeans_backend_enhanced.py:262 | appending a score adds one exactly when it exceeds t |
| Counting.WhereListSpec | wiresharkanalyzer.py:377 | the positions listed are exactly those where the mask holds |
| Counting.WhereListAscending | wiresharkanalyzer.py:377 | they ascend |
| Counting.Where | wiresharkanalyzer.py:370 | `df[mask]`: exactly the rows where the mask holds, ascending |
| Table.Column | wireshark_kmeans_backend_enhanced.py:165 | `df[n]` has one cell per row |
| Table.Present | wiresharkanalyzer.py:240 | the non-missing cells of a column, exactly those |
| Table.Flag | wireshark_kmeans_backend_enhanced.py:187 | `astype(int)` of a boolean is 1 exactly when it holds, else 0 |
| Table.FirstMissing | wireshark_kmeans_backend_enhanced.py:165-189 | None exactly when every needed column exists; otherwise the first needed column that is absent |
| Table.MissingListSpec | wiresharkanalyzer.py:78 | the comprehension lists exactly the required columns that are absent |
| Table.MissingColumns | wiresharkanalyzer.py:78 | `[c for c in required if c not in df.columns]`: exactly the absent required columns, at most as many as required |
| Table.Parsed | wiresharkanalyzer.py:246 | the numbers of a column that are not NaN, exactly those |
| Table.MeanOf | wiresharkanalyzer.py:246 | `mean()` skipping NaN is NaN exactly when no number is present |
| Table.MaxPresent | wiresharkanalyzer.py:351 | `max()` skipping NaN is NaN exactly when no number is present, else the greatest number |
| Analyzer.InputPath | wiresharkanalyzer.py:44-49 | an error exactly when both are absent; otherwise the positional path when given, else `--file` |
| Analyzer.PositionalWins | wiresharkanalyzer.py:42-49 | a positional path is used whatever `--file` says |
| Analyzer.LoadWiresharkCsv | wiresharkanalyzer.py:53-108 | missing file, empty file and unreadable file are errors. Loading succeeds exactly when fewer than 3 of the 5 columns are missing and no negative sample was requested. The missing columns are only reported, and sampling happens exactly when the row count exceeds a non-zero sample size |
| Analyzer.LoadAbortsOnThreeMissing | wiresharkanalyzer.py:77-87 | an unsampled, readable export is refused exactly when 3 or more of the 5 columns are missing |
| Analyzer.LoadExamples | wiresharkanalyzer.py:77-87 | lacking Destination and Protocol loads with a warning; also lacking Source is refused |
| Analyzer.MissingTwo | wiresharkanalyzer.py:78 | the missing list for `No., Time, Source, Info` |
| Analyzer.MissingThree | wiresharkanalyzer.py:78 | the missing list for `No., Time, Info` |
| Analyzer.LocalFeature | wiresharkanalyzer.py:115-122 | 0 or 1. It is 1 exactly for a present address starting with `10.`, `172.16.` or `192.168.`; a missing address is tested as `nan` |
| Analyzer.AnalyzerLocalExamples | wiresharkanalyzer.py:115-122 | `172.20.0.1` is not local; `172.16.4.2`, `10.0.0.1` and `192.168.1.7` are |
| Analyzer.ProtocolCode | wiresharkanalyzer.py:131-141 | every code lies in 0..7 |
| Analyzer.ProtocolFeature | wiresharkanalyzer.py:144-146 | `protocol_map.get(x, 0)` lies in 0..7 |
| Analyzer.ProtocolTable | wiresharkanalyzer.py:131-146 | non-zero exactly for the nine known names; 7 exactly for the three TLS spellings |
| Analyzer.ProtocolLookupExact | wiresharkanalyzer.py:131-146 | TCP=1 … DNS=6; TLSv1.2=7; `tcp`, ARP and a missing protocol are 0 |
| Analyzer.Numeric | wiresharkanalyzer.py:155-158 | `to_numeric(errors='coerce')` cell by cell |
| Analyzer.TimeDiff | wiresharkanalyzer.py:161 | `diff().fillna(0)`: 0 for the first row and next to a missing time |
| Analyzer.InfoFeatures | wiresharkanalyzer.py:170-187 | `has_error` is 1 exactly when an error word appears in the lower-cased text; `is_syn` exactly when `[SYN]` appears; `is_fin` exactly when `[FIN` appears; `is_dns` exactly when `Standard query` or `response` appears; all four are 0 or 1 |
| Analyzer.ErrorFlagIgnoresCase | wiresharkanalyzer.py:170-172 | upper-casing the text does not change `has_error` |
| Analyzer.FinAckIsFin | wiresharkanalyzer.py:175-182 | `[FIN, ACK]` is FIN and not SYN |
| Analyzer.QueryIsDns | wiresharkanalyzer.py:185-187 | a DNS query text sets `is_dns` |
| Analyzer.InputsOf | wiresharkanalyzer.py:115-185 | the six looked-up columns have one cell per packet |
| Analyzer.FeatureVector | wiresharkanalyzer.py:200-207 | one row has exactly nine numbers |
| Analyzer.VectorOf | wiresharkanalyzer.py:200-201 | the nine numbers in the column order |
| Analyzer.FeatureMatrix | wiresharkanalyzer.py:200-207 | one row per packet |
| Analyzer.EnrichedOf | wiresharkanalyzer.py:194-197 | the enriched columns have one entry per packet |
| Analyzer.PrepareFeatures | wiresharkanalyzer.py:191-209 | a KeyError exactly when an input column is missing, and it names the first one absent; otherwise one nine-number row per packet and the enriched columns |
| Analyzer.FeatureRowNumbers | wiresharkanalyzer.py:155-207 | the length is its parsed value or 0. The delta is the time gap, or 0 for the first packet and next to a missing time. The protocol code is exact |
| Analyzer.VectorNumbers | wiresharkanalyzer.py:200-207 | length, delta and protocol code of one vector |
| Analyzer.FeatureRowFlags | wiresharkanalyzer.py:115-207 | the seven flags are 0.0 or 1.0; each is 1.0 exactly when its test holds |
| Analyzer.VectorFlags | wiresharkanalyzer.py:200-207 | the flags of one vector are 0.0 or 1.0 |
| Analyzer.VectorOfBinary | wiresharkanalyzer.py:200-201 | 0/1 inputs give 0.0/1.0 entries |
| Analyzer.VectorLocal | wiresharkanalyzer.py:115-122 | the address entries are the local tests |
| Analyzer.VectorInfo | wiresharkanalyzer.py:170-187 | the Info entries are the four searches |
| Analyzer.InCluster | wiresharkanalyzer.py:236 | `df[df['cluster'] == c]` has as many rows as the cluster has labels |
| Analyzer.ReportOf | wiresharkanalyzer.py:236-247 | the report of cluster c carries c and its size |
| Analyzer.ReportTopProtocols | wiresharkanalyzer.py:240-243 | min(3, number of distinct protocols) protocols, each with its exact count in the cluster, distinct, most frequent first, and no unreported protocol more frequent than a reported one |
| Analyzer.SizesOf | wiresharkanalyzer.py:237 | the (id, size) pairs of the reports |
| Analyzer.AnalyzeClusters | wiresharkanalyzer.py:232-237 | as written: one report per i in `range(len(unique(labels)))`, with size `Count(labels, i)` |
| Analyzer.SumCountsOfRange | wiresharkanalyzer.py:235-237 | the sizes of clusters 0..m-1 add up to the labels below m |
| Analyzer.AnalyzeClustersSizes | wiresharkanalyzer.py:232-237 | the reported sizes add up to the labels below the number of distinct labels. So they sum to the row count exactly when every label is below that number |
| Analyzer.AnalyzeClustersMissesLabel | wiresharkanalyzer.py:232-237 | labels `[0, 2, 2]` give two reports whose sizes add up to 1, not 3 |
| Analyzer.DistinctOfExample | wiresharkanalyzer.py:232 | `[0, 2, 2]` has the distinct values `[0, 2]` |
| Analyzer.AnalyzeClustersFixed | wiresharkanalyzer.py:226-267 | iterating over the labels that occur: the reports carry exactly the `np.unique` sizes |
| Analyzer.AnalyzeClustersFixedSizes | wiresharkanalyzer.py:232-243 | the corrected reports' sizes sum to the row count; ids ascend; every occurring label is reported with its size |
| Analyzer.SmallClusters | wiresharkanalyzer.py:331-334 | a label is listed exactly when it is in the order and its cluster is under 5% of the rows |
| Analyzer.SmallClustersSpec | wiresharkanalyzer.py:331-334 | for any `value_counts` order: exactly the occurring labels under 5%, each once |
| Analyzer.SmallClustersDistinct | wiresharkanalyzer.py:334 | a list without duplicates yields small clusters without duplicates |
| Analyzer.SmallReportOf | wiresharkanalyzer.py:339-358 | the examined cluster, its size, the count of its error packets, and a maximum length that is one of its lengths |
| Analyzer.UnusualLength | wiresharkanalyzer.py:369-370 | exactly the packets whose length parses above the threshold |
| Analyzer.ErrorPackets | wiresharkanalyzer.py:377 | exactly the packets with `has_error == 1`, in row order |
| Analyzer.DetectAnomalies | wiresharkanalyzer.py:326-381 | one small-cluster report per small cluster, in the order's sequence |
| Analyzer.DetectAnomaliesSpec | wiresharkanalyzer.py:331-377 | the examined clusters are exactly those under 5%; the error packets are exactly those whose Info has an error word |
| Analyzer.ErrorPacketsOfInfo | wiresharkanalyzer.py:170-172 | the enriched `has_error` column picks exactly the packets with an error word |
| Minimal.MinimalAnalyzer.constructor | wireshark_kmeans_backend_minimal.py:22-29 | k is stored, and there are no features, labels or scores yet |
| Minimal.MinimalAnalyzer.LoadData | wireshark_kmeans_backend_minimal.py:31-47 | the table, unchanged, exactly when it was read and lacks none of the six required columns |
| Minimal.ColumnsOf | wireshark_kmeans_backend_minimal.py:53-82 | the columns the loop reads have one cell per row; Info exactly when the column exists |
| Minimal.FloatOrZero | wireshark_kmeans_backend_minimal.py:57-58 | a missing cell is 0; a present one is `float()` of its text, None when that raises |
| Minimal.ReadNumber | wireshark_kmeans_backend_minimal.py:57-58 | a readable cell: 0 when missing, else its parsed value |
| Minimal.ProtocolNumber | wireshark_kmeans_backend_minimal.py:61-64 | every code lies in 0..8 |
| Minimal.ProtocolFeature | wireshark_kmeans_backend_minimal.py:65 | `protocol_map.get(x, 0)` lies in 0..8 |
| Minimal.ProtocolTable | wireshark_kmeans_backend_minimal.py:61-65 | non-zero exactly for the ten known names; 7 exactly for the TLS spellings; 8 exactly for ARP |
| Minimal.LocalFlag | wireshark_kmeans_backend_minimal.py:68-72 | 0 or 1. It is 1 exactly for a present address matching the pattern; a missing one is tested as "" |
| Minimal.MinimalLocalExamples | wireshark_kmeans_backend_minimal.py:71-72 | 172.16. to 172.31. are local; 172.15., 172.32. and 100. are not |
| Minimal.RowsOf | wireshark_kmeans_backend_minimal.py:53-88 | n rows for the first n packets |
| Minimal.RowsOfAt | wireshark_kmeans_backend_minimal.py:53-88 | row j of the list is the features dict of packet j |
| Minimal.RowOfSpec | wireshark_kmeans_backend_minimal.py:53-88 | a missing length or time is 0. The delta is 0 on row 0, else this time minus the previous one as read (missing = 0). The protocol is in 0..8, the address flags are the local test, and without Info every flag is 0 |
| Minimal.DeltaRead | wireshark_kmeans_backend_minimal.py:75-77 | the delta from a missing previous time is the time itself; otherwise time - delta is the previous time as parsed |
| Minimal.RowOfReads | wireshark_kmeans_backend_minimal.py:57-79 | length, time and delta of one row as `float()` read them |
| Minimal.RowOfCodes | wireshark_kmeans_backend_minimal.py:61-86 | protocol range, address flags, and zero flags without Info |
| Minimal.NoFlagsInEmptyText | wireshark_kmeans_backend_minimal.py:82-86 | the empty Info text sets no flag |
| Minimal.MinimalAnalyzer.RowFeatures | wireshark_kmeans_backend_minimal.py:54-88 | None exactly when `float()` raises on Length or Time; otherwise the row's features dict |
| Minimal.MinimalAnalyzer.ExtractFeatures | wireshark_kmeans_backend_minimal.py:49-96 | an error exactly when some row's Length or Time does not convert; otherwise one dict per row, in order |
| Minimal.NormalizeMinimal | wireshark_kmeans_backend_minimal.py:120-127 | the normalisation keeps the number of scores |
| Minimal.NormalizeMinimalSpec | wireshark_kmeans_backend_minimal.py:120-127 | three cases. With n > 1 and max > min: [0, 1], min at 0, max at 1, order kept. With n > 1 and all equal: every score 0. With n <= 1: unchanged |
| Minimal.NormalizeMinimalInUnit | wireshark_kmeans_backend_minimal.py:120-127 | with more than one score, every normalised score lies in [0, 1] |
| Minimal.MinimalAnalyzer.PerformClustering | wireshark_kmeans_backend_minimal.py:98-133 | rejected, changing nothing, exactly when there are fewer rows than k, k < 1, or every row has a label of its own (silhouette_score raises). Otherwise the scaled rows, the labels and the normalised row-minimum scores are stored; the silhouette is 0 when one label occurs |
| Minimal.SilhouetteRaisesOnSingletons | wireshark_kmeans_backend_minimal.py:111-112 | five packets with five different labels make silhouette_score raise; five packets with four labels do not |
| Minimal.EntryOf | wireshark_kmeans_backend_minimal.py:153-162 | an entry carries its id, its size and size / total * 100 |
| Minimal.EntriesOf | wireshark_kmeans_backend_minimal.py:147-164 | one entry per given cluster, with id, size and percentage |
| Minimal.EntriesOfSnoc | wireshark_kmeans_backend_minimal.py:164 | appending a cluster appends its entry |
| Minimal.MinimalAnalyzer.AddClusterEntry | wireshark_kmeans_backend_minimal.py:147-164 | one round: cluster c is added exactly when it has packets |
| Minimal.MinimalAnalyzer.AnalyzeClusters | wireshark_kmeans_backend_minimal.py:135-166 | k, the packet count, and one entry per occurring cluster id below k, ascending; the table with labels and scores attached |
| Minimal.ClusterEntriesSpec | wireshark_kmeans_backend_minimal.py:147-164 | entries only for non-empty clusters, ascending ids, every occurring label covered |
| Minimal.ClusterEntriesTotals | wireshark_kmeans_backend_minimal.py:147-164 | the sizes add up to the total and the percentages to 100 |
| Minimal.DivAdd | wireshark_kmeans_backend_minimal.py:156 | percentages of two sizes add up as the sizes do |
| Minimal.PercentTotalOfSizes | wireshark_kmeans_backend_minimal.py:156 | the percentages add up to the sum of the sizes over the total, times 100 |
| Minimal.EntriesIds | wireshark_kmeans_backend_minimal.py:153-155 | entries carry the ids and sizes they were built from, ascending |
| Minimal.EntryIds | wireshark_kmeans_backend_minimal.py:154 | the ids of the entries, in order |
| Minimal.EntriesCover | wireshark_kmeans_backend_minimal.py:147-151 | every occurring label below k has an entry |
| Minimal.PacketNumbers | wireshark_kmeans_backend_minimal.py:200 | the packet numbers of the anomaly list, in order |
| Minimal.AnomalyAt | wireshark_kmeans_backend_minimal.py:179-188 | an entry built from row i carries row i's packet number |
| Minimal.HotMask | wireshark_kmeans_backend_minimal.py:176 | the mask is true exactly where the score exceeds the threshold |
| Minimal.HighRows | wireshark_kmeans_backend_minimal.py:176 | the high-scoring rows are rows of the table |
| Minimal.MinimalAnalyzer.IsListed | wireshark_kmeans_backend_minimal.py:200 | the `any(...)` test holds exactly when the number is listed |
| Minimal.MinimalAnalyzer.HighScoreEntries | wireshark_kmeans_backend_minimal.py:176-189 | exactly one high-score entry per row above the threshold, in row order |
| Minimal.SmallAfterSnoc | wireshark_kmeans_backend_minimal.py:199-211 | appending a small-cluster entry with an unseen number keeps the list's shape |
| Minimal.PrefixListed | wireshark_kmeans_backend_minimal.py:199-211 | appending keeps every listed number listed |
| Minimal.MinimalAnalyzer.AddPacket | wireshark_kmeans_backend_minimal.py:198-211 | one round of the inner loop: the earlier entries are kept, the list keeps its shape, and row r is listed when in cluster c |
| Minimal.MinimalAnalyzer.AddClusterPackets | wireshark_kmeans_backend_minimal.py:196-211 | every packet of the small cluster ends up listed, with earlier entries and numbers kept, and each new entry unseen before |
| Minimal.MinimalAnalyzer.DetectAnomalies | wireshark_kmeans_backend_minimal.py:168-213 | the high-score rows come first, in row order. Then come small-cluster entries whose numbers were not listed before. Every packet of a small cluster ends up listed |
| Minimal.HighFirstExtends | wireshark_kmeans_backend_minimal.py:191-211 | appending keeps the high-score prefix |
| Minimal.HighListed | wireshark_kmeans_backend_minimal.py:176-189 | every row above the threshold is listed |
| Minimal.AnomaliesUnique | wireshark_kmeans_backend_minimal.py:176-211 | with unique packet numbers, no number appears twice in the list |
| Minimal.MinimalAnalyzer.PacketResults | wireshark_kmeans_backend_minimal.py:240-247 | one row per packet: number, label, score, and `is_anomaly` exactly when the number is listed |
| Minimal.MinimalAnalyzer.FlagPackets | wireshark_kmeans_backend_minimal.py:224-247 | the list is built as detect_anomalies builds it (high-score rows first, then unseen small-cluster rows); each row carries its packet's number, label and score, and is flagged exactly when listed; every high-scoring and every small-cluster packet is flagged |
| Minimal.MinimalAnalyzer.GenerateResults | wireshark_kmeans_backend_minimal.py:215-249 | the clustering error propagates and nothing is stored. Otherwise the clustering state is stored. The silhouette value is reported when more than one label occurs, else 0. The cluster analysis is analyze_clusters' on the clustered table, and the sizes sum to the total. The anomaly list is built as detect_anomalies builds it, and `num_anomalies` is its length. Each packet row carries its number, label and score; it is flagged exactly when listed, and every high-scoring and small-cluster packet is flagged |
| Variants.LocalTestsAgree | wireshark_kmeans_backend_minimal.py:71-72 | the minimal backend's five alternatives accept exactly what the enhanced pattern accepts |
| Variants.MinimalLocalRanges | wireshark_kmeans_backend_minimal.py:71-72 | the minimal test is exactly: `10.`, `192.168.` or `172.N.` with 16 <= N <= 31 |
| Variants.AnalyzerLocalNarrower | wiresharkanalyzer.py:115-122 | whatever the analyzer calls local the backends do too, but `172.20.0.1` only the backends |
| Variants.MissingAddressFlags | wireshark_kmeans_backend_minimal.py:68-72 | a missing address is local in no variant |
| Variants.ProtocolMapsAgree | wireshark_kmeans_backend_minimal.py:61-65 | the minimal map is the analyzer's with ARP added as 8 |
| Variants.ReadTimes | wireshark_kmeans_backend_minimal.py:58 | the times the minimal backend reads, one per row |
| Variants.MinimalDeltasTelescope | wireshark_kmeans_backend_minimal.py:74-79 | the minimal deltas are the successive differences of the times read and add up to last minus first |
| Variants.TimeDiffWhenPresent | wiresharkanalyzer.py:161 | with every time present, the analyzer's deltas are the same successive differences |
| Variants.MissingTimeDiffers | wiresharkanalyzer.py:161 | a missing middle time: the analyzer gives 0, 0; the backend gives -1, 3 |
| Variants.NormalizationsAgree | wireshark_kmeans_backend_minimal.py:120-127 | the two normalisations differ only for several all-equal scores: zeros in the minimal backend, unchanged in the enhanced one |
| Variants.EqualScoresExample | wireshark_kmeans_backend_minimal.py:126-127 | `[2, 2]` stays `[2, 2]` in the enhanced backend and becomes `[0, 0]` in the minimal one |

## Left out

- **scikit-learn.** `StandardScaler`, `KMeans`, `PCA` and `silhouette_score` are foreign calls. The labels, the distance matrix, the scaled rows and the silhouette value are parameters. The `self.kmeans`, `self.scaler` and `self.pca` fields are not modelled.
- **Percentiles.**
  - `np.percentile` (90th and 95th) and the 99.5% length `quantile` are float interpolation; the thresholds are parameters.
  - `std_score` of the enhanced summary is a square root and is not modelled.
- **Reading files.**
  - pandas `read_csv` and the analyzer's encoding-retry loop are library behaviour and I/O: the frame they produce, or None when they raise, is a parameter.
  - Whether the file exists and its size are parameters.
  - Reading the fallback file is a parameter too: its first line and its remaining lines.
- **Random sampling.** `df.sample` randomness is not modelled: the model records only whether sampling happens and to what size.
- **Floats and number syntax.**
  - Numbers are exact reals, so float rounding is not modelled.
  - Numbers are read by sign, digits and an optional decimal point only.
  - `0.05 * total` is modelled as the exact rule `20 * count < total`.
- **Case mapping.** Lower-casing, upper-casing and `case=False` are ASCII-only.
- Minimal.Anomaly: `int(row['No.'])` and `int(row['Length'])` are not modelled. The packet numbers are an integer column given as a parameter, and the length is kept as its cell.
- Minimal.EntryOf: `cluster_data['Length'].mean()` is modelled as the mean of the lengths that parse, with NaN as None. A pandas TypeError on a text column is not modelled.
- Minimal.MinimalAnalyzer.DetectAnomalies: The order of the small-cluster entries among themselves is not stated, beyond their coming after the high-score entries. It follows the `value_counts()` order, which is a parameter. The contract states which entries are there, not their order.
- Minimal.MinimalAnalyzer.AnalyzeClusters: requires that a clustering has run. Before one, the Python method attaches a column of None and returns an analysis with no clusters; the model does not cover that call, which `generate_results` never makes.
- Text.ParseNumber: exponents (`1e3`), surrounding whitespace (` 60 `), `inf` and `nan` text read as NaN, where pandas' `to_numeric` reads them as numbers.
- Minimal.FloatOrZero: such texts are treated as making `float()` raise, so Minimal.MinimalAnalyzer.ExtractFeatures reports an error where Python's `float()` accepts them.
- Analyzer.AnalyzeClusters: the printed sample packets are not modelled. `row['Info'][:50]` raises TypeError when Info is missing (NaN) on one of a reported cluster's first two rows (wiresharkanalyzer.py:265), and the program aborts; the model still returns the reports.
- Analyzer.DetectAnomalies: the same TypeError is not captured. It is raised for a missing Info on a small cluster's first three rows (wiresharkanalyzer.py:364) or on the first three unusual-length rows (wiresharkanalyzer.py:374). The contract states the small-cluster reports. The unusual-length and error lists are stated by Analyzer.UnusualLength, Analyzer.ErrorPackets and Analyzer.DetectAnomaliesSpec.
- **Console output.** Printing, `print` formatting, the percentages the analyzer only prints, and the `[:50]` / `[:100]` Info excerpts are not modelled.
- **Plumbing.** The `main` functions, argparse wiring, and JSON/CSV file writing are not modelled. The timestamp of `export_results` and `generate_visualizations` / `open_generated_graphs` are not modelled either.
- **Other scripts.** `example_usage.py` (a demo script) and `test_backend.py` (a script that runs the backend on random data) are not modelled.

## Findings

| source | as written | input that shows it | evidently intended | confidence | as-written member | corrected member |
|---|---|---|---|---|---|---|
| wiresharkanalyzer.py:232-236 | `analyze_clusters` reports clusters `0 .. len(np.unique(labels)) - 1`, assuming the labels that occur are exactly 0..m-1 | k = 3 with KMeans leaving cluster 1 empty, labels `[0, 2, 2]`: clusters 0 and 1 are reported (sizes 1 and 0), and cluster 2 with two packets is never reported | report every label that occurs, so the per-cluster sizes add up to the number of packets | not executed | Analyzer.AnalyzeClustersMissesLabel | Analyzer.AnalyzeClustersFixedSizes |

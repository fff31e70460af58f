# csventrifuge in Dafny

csventrifuge cleans a tabular data source before it goes into
OpenStreetMap. A *source* module delivers a data frame. `main` then loads
three books of tab-separated files, each kept per column of the frame:

- **rules** (`rules/<source>/<column>.csv`) rewrite a cell value into a replacement;
- **enhancements** (`enhance/<source>/<column>/<target>.csv`) derive the value of a
  *target* column from the value of a source column; a target that is not yet a
  column is appended to the column list, though not to the frame (see Findings);
- **filters** (`filters/<source>/<column>.csv`) drop every row whose cell holds
  one of the listed values.

The frame passes three stages in this order: it is filtered, then
substituted, then enhanced. Each rule, enhancement and filter counts the rows
it matched. Every enhanced column that is still null is reported, and every
book entry whose count stayed 0 is reported as unused.

This model covers that run (`csventrifuge.py`). It also covers three
helpers around it:

- the fixed-width reader of the CACLR street directory
  (`sources/luxembourg-caclr-dicacolo.py`);
- the enrichment of the national address list
  (`sources/luxembourg_addresses.py`);
- the conversion of the address list to OpenStreetMap's address tags
  (`process_addresses.py`).

Modules:

- `Dict` (dict.dfy): Python's insertion-ordered dict as a sequence of
  (key, value) pairs. `Put` overwrites an existing key in place or appends a
  new one, so the iteration order matches Python's.
- `Paths` (paths.dfy): `os.path.splitext` and `form_module`.
- `Books` (books.dfy): the entries, the three loaders, and the column list
  that `load_enhancements` grows in place (class `ColumnList`). The file
  system is a parameter: a map from column to the parsed (old, new) lines of
  its file, and for enhancements a map from column to a directory listing of
  (file name, lines) pairs.
- `Pipeline` (pipeline.dfy): the filter, substitute and enhance stages, each
  as a specification function (`FilterPass`, `SubstitutePass`, `EnhancePass`)
  and as an imperative method that builds the new rows and counted books
  (`FilterStage`, `SubstituteStage`, `EnhanceStage`); also the null check.
- `Audit` (audit.dfy): the report of unused rules, enhancements and filters.
- `Run` (run.dfy): the whole of `main` after the frame is read, as a function
  (`Centrifuge`) and as a method (`Run`). It also holds the end-to-end
  properties: the totals, and exactly which entries are reported unused.
- `Dicacolo`, `Addresses`, `AddressExport`: the three helper scripts.

A data-frame row is `map<string, Option<string>>`, with `None` for null.

## Model

| member | source | states |
|---|---|---|
| Dict.Keys | csventrifuge.py:249 | the key list of a dict has one key per entry, in entry order |
| Dict.Get | csventrifuge.py:252 | a lookup is null exactly when the key is absent, and otherwise returns a value stored under that key |
| Dict.GetUnique | csventrifuge.py:252 | in a dict with distinct keys, looking up the key of entry i gives entry i's value |
| Dict.PutKeys | csventrifuge.py:167 | assigning an existing key keeps the key order; a new key is appended at the end |
| Dict.PutGet | csventrifuge.py:167 | after `d[k] = v`, `d[k]` is v and every other key reads as before |
| Dict.PutUnique | csventrifuge.py:167 | assignment keeps the keys distinct |
| Dict.PutPut | csventrifuge.py:167 | assigning the same key twice is the same as assigning it once with the last value |
| Dict.PutElems | csventrifuge.py:167 | assignment adds no pair other than (k, v) |
| Dict.InKeys | csventrifuge.py:249 | a key is in the key list exactly when the dict has the key |
| Dict.GetSnoc | csventrifuge.py:156 | a dict extended by a new last pair answers earlier keys as before and the new key with its value |
| Paths.RFind | csventrifuge.py:87 | the index of the last occurrence of a character, or -1, with nothing matching after it |
| Paths.Stem | csventrifuge.py:182 | `Path.stem`: when the last dot is neither the first nor the last character, the part before it; otherwise the whole name |
| Paths.SplitExtRoot | csventrifuge.py:87 | `splitext(p)[0]` is p cut at its last dot exactly when that dot lies in the last path component after some character other than a dot, and p itself otherwise |
| Paths.FormModule | csventrifuge.py:78-87 | the module name is "." followed by the path cut where `splitext` cuts it, or by the whole path when it has no such dot |
| Paths.FormModuleIsStem | csventrifuge.py:78-87 | for a file name with no slash and no leading or trailing dot, the module name is "." followed by its stem |
| Paths.SplitExtRootCutsLastDot | csventrifuge.py:87 | the root is cut at the last dot of the last path component, and no slash follows the cut |
| Paths.FormModuleExample | tests/test_csventrifuge.py:25 | "example.py" gives ".example" |
| Paths.FormModuleUpperCase | tests/test_csventrifuge.py:26 | "another.PY" gives ".another": the extension's case does not matter |
| Paths.FormModuleHiddenFile | csventrifuge.py:87 | a hidden file ".bashrc" has no extension and gives "..bashrc" |
| Books.PutAllUnique | csventrifuge.py:166-167 | loading a file's lines one by one yields a dict with distinct keys |
| Books.PutAllFrom | csventrifuge.py:166-167 | every loaded pair comes from one line of the file |
| Books.PutAllHasKey | csventrifuge.py:166-167 | a key is loaded exactly when some line of the file holds it |
| Books.PutAllLastWins | csventrifuge.py:166-167 | a key listed on several lines keeps the value of its last line |
| Books.RuleFileLoaded | csventrifuge.py:156-167 | a rule table has distinct keys, all with count 0, one for each old value in the file |
| Books.FilterFileLoaded | csventrifuge.py:209-220 | a filter table has distinct keys, each with entry FilterEntry(value, 0), one for each value in the file |
| Books.RuleFileLastWins | csventrifuge.py:166-167 | a repeated old value maps to the replacement on its last line |
| Books.WithFile | csventrifuge.py:152-155 | the columns kept are exactly the columns that have a file |
| Books.BookOfGet | csventrifuge.py:149-168 | a book holds a column's table exactly when the column is in the key list and has a file, and that table is the file's |
| Books.BookOfKeys | csventrifuge.py:149-168 | a book's columns are the key list's columns that have a file, in key-list order, each once |
| Books.BookOfFrom | csventrifuge.py:149-168 | every table of a book is the loaded file of its own column |
| Books.BookOfNone | csventrifuge.py:152-156 | with no file of a kind, the book of that kind is empty |
| Books.Stems | csventrifuge.py:180-182 | the targets of a directory are the stems of its file names, in listing order |
| Books.AppendNewGrows | csventrifuge.py:183-184 | appending the targets keeps the old columns as a prefix; the new tail holds targets that were not columns before |
| Books.AppendNewDistinct | csventrifuge.py:183-184 | a list of distinct columns stays distinct |
| Books.AllTargetsIn | csventrifuge.py:175-186 | a target is enhanced exactly when some original column's directory provides it |
| Books.EnhancementLoading | csventrifuge.py:171-199 | the column list grows by the new targets only, stays distinct and ends up holding every enhanced target; the book has one entry per column with a directory |
| Books.ColumnList.constructor | csventrifuge.py:239 | the column list starts as the frame's columns |
| Books.ReadEntries | csventrifuge.py:166-167 | the loop over a file's lines builds the table the loading function specifies |
| Books.LoadBook | csventrifuge.py:149-168 | the loop over the key list builds the book the specification function gives |
| Books.LoadRules | csventrifuge.py:149-168 | `load_rules` gives, for every column, its rule table when the column has a file, and nothing otherwise |
| Books.LoadFilters | csventrifuge.py:202-222 | `load_filters` gives, for every column, its filter table when the column has a file, and nothing otherwise |
| Books.DirectoryStep | csventrifuge.py:180-197 | one file of a directory puts its table under its stem, appends the stem to the columns when new, and marks it enhanced |
| Books.LoadDirectory | csventrifuge.py:179-197 | the loop over a directory builds its target tables, grows the column list and marks the stems as enhanced |
| Books.ElemsIn | csventrifuge.py:185 | the enhanced set holds exactly the listed targets |
| Books.ElemsConcat | csventrifuge.py:185 | adding the targets of two directories one after the other adds their union |
| Books.AppendNewConcat | csventrifuge.py:183-184 | appending targets directory by directory gives the same list as appending them all at once |
| Books.LoadEnhancements | csventrifuge.py:171-199 | `load_enhancements` returns the specified book and enhanced set, and leaves the caller's column list grown as specified |
| Pipeline.CountIn | csventrifuge.py:250 | no more rows match than there are rows |
| Pipeline.Recount | csventrifuge.py:251-252 | recounting keeps the table's length |
| Pipeline.RecountAt | csventrifuge.py:250-252 | each entry takes the number of rows holding its key, and a key that no row holds keeps its old count |
| Pipeline.CountInSnoc | csventrifuge.py:250 | the rows matching one more key are the old matches plus that key's occurrences |
| Pipeline.SumOccIsCountIn | csventrifuge.py:250-253 | the sum of the counts of a table with distinct keys is the number of rows matched by any of its keys |
| Pipeline.CountInNone | csventrifuge.py:250 | an empty key list matches no row |
| Pipeline.RecountFresh | csventrifuge.py:250-253 | counting a fresh table sets each count to its key's occurrences, and the counts add up to the sum of the occurrences |
| Pipeline.CountMatches | csventrifuge.py:250-253 | the counting loop stores the occurrence counts and returns their sum |
| Pipeline.Drop | csventrifuge.py:254 | filtering a column removes exactly the matching rows |
| Pipeline.FilterPass | csventrifuge.py:246-254 | the filter stage keeps the filter book's columns in order |
| Pipeline.FilterStage | csventrifuge.py:246-254 | the filter loop produces the rows, counted book and total of the specification |
| Pipeline.Survivors | csventrifuge.py:254 | a row survives exactly when it was in the input and matches no filter |
| Pipeline.SurvivorsSnoc | csventrifuge.py:248-254 | one more filter column drops that column's matches from the survivors |
| Pipeline.FilterKeepsSurvivors | csventrifuge.py:246-254 | the filter stage leaves exactly the survivors, in their order |
| Pipeline.SurvivorsAll | csventrifuge.py:246-254 | an empty filter book keeps every row |
| Pipeline.FilterRemovesMatches | csventrifuge.py:254 | no remaining row matches any filter |
| Pipeline.FilterCounts | csventrifuge.py:248-253 | a filter counts its matches among the rows left by the filters before it |
| Pipeline.FilterTotals | csventrifuge.py:246-254 | `filtered` is the number of rows dropped, and for a freshly loaded book it is also the sum of the filter counts |
| Pipeline.Lookup | csventrifuge.py:260-265 | `replace` maps a listed value to its replacement and leaves unlisted values and null unchanged |
| Pipeline.ReplaceColumn | csventrifuge.py:265 | every row keeps its columns; its cell in the replaced column becomes the rule table's lookup of the old value, and every other cell stays |
| Pipeline.ReplaceCell | csventrifuge.py:265 | only the replaced column changes in a row, and the row keeps its columns |
| Pipeline.SubstitutePass | csventrifuge.py:256-265 | substitution keeps the number of rows |
| Pipeline.SubstituteStage | csventrifuge.py:256-265 | the substitution loop produces the rows, counted book and total of the specification |
| Pipeline.SubstituteCells | csventrifuge.py:256-265 | each cell after substitution is the original cell rewritten by the rule table of its own column, and rows keep their columns |
| Pipeline.SubstituteLeavesUnmatched | csventrifuge.py:265 | a cell that no rule of its column matches stays as it was |
| Pipeline.SubstituteNoChaining | csventrifuge.py:265 | the rules A to B and B to C turn A into B, not C |
| Pipeline.OccSameColumn | csventrifuge.py:261 | counts depend only on the counted column |
| Pipeline.CountsSameColumn | csventrifuge.py:261-263 | recounts depend only on the counted column |
| Pipeline.SubstituteCounts | csventrifuge.py:257-264 | every rule counts its matches in the rows substitution received, and `substitutions` is the sum |
| Pipeline.SubstituteColumnKept | csventrifuge.py:265 | substituting other columns leaves a column untouched |
| Pipeline.SubstituteTotals | csventrifuge.py:256-265 | `substitutions` is the number of rule hits, and for a freshly loaded book also the sum of the rule counts |
| Pipeline.SumBookHits | csventrifuge.py:256-264 | summing the stored sums gives the rule hits |
| Pipeline.SumBookTotal | csventrifuge.py:256-264 | summing the stored sums gives the total of the counted book |
| Pipeline.LookupTwice | csventrifuge.py:265 | when no replacement is itself a key of the table, replacing twice gives what replacing once gives |
| Pipeline.SubstituteIdempotent | csventrifuge.py:256-265 | when no replacement is itself a rule key of its column, substituting twice equals substituting once |
| Pipeline.EnhanceColumn | csventrifuge.py:273-278 | the target cell takes the table's replacement exactly in the rows whose source value is a key of the table; every other cell stays |
| Pipeline.EnhanceCell | csventrifuge.py:273-278 | the target takes the replacement when the source value is listed, otherwise it keeps its own value; other columns stay |
| Pipeline.EnhanceTargets | csventrifuge.py:268-278 | enhancing from one source column keeps the rows' number and the target tables' number |
| Pipeline.EnhancePass | csventrifuge.py:267-278 | the enhancement stage keeps the rows' number and the book's length |
| Pipeline.EnhanceSource | csventrifuge.py:268-278 | the loop over a source column's targets produces the rows and counts of the specification |
| Pipeline.EnhanceStage | csventrifuge.py:267-278 | the enhancement loop produces the rows and counted book of the specification |
| Pipeline.IsTargetInit | csventrifuge.py:267-268 | a column is a target of a book exactly when it is a target of the prefix or of the last source column |
| Pipeline.EnhanceTargetsFrame | csventrifuge.py:273-278 | a column that is no target stays as it was, and a non-null cell is never made null |
| Pipeline.EnhanceFrame | csventrifuge.py:267-278 | only target columns change, and no cell becomes null |
| Pipeline.DeriveSameSource | csventrifuge.py:274-276 | the derived value depends only on the source column |
| Pipeline.EnhanceTargetsCells | csventrifuge.py:268-278 | when the source column is none of its own targets, each target takes the value of the last of its tables that matches the source value |
| Pipeline.IndependentInit | csventrifuge.py:267 | independence carries over to the book's prefix, and the last source column is no target |
| Pipeline.EnhanceCells | csventrifuge.py:267-278 | when no target is also a source column, each cell gets the value of the last matching (source, target) pair, read from the rows as they entered the stage |
| Pipeline.CountTargets | csventrifuge.py:270-272 | counting keeps the number of target tables |
| Pipeline.CountTargetsAt | csventrifuge.py:270-272 | each target table counts its matches in the source column |
| Pipeline.EnhanceTargetsCounts | csventrifuge.py:268-272 | when the source column is none of its own targets, the counts of its tables come from the rows as that column's turn began |
| Pipeline.EnhanceCounts | csventrifuge.py:267-272 | when no target is also a source column, each source column counts against the rows as its turn began |
| Pipeline.EnhanceTargetsTurn | csventrifuge.py:268-272 | target t of a source column is counted against the rows as the earlier targets of that column left them |
| Pipeline.EnhancePassTurn | csventrifuge.py:267-272 | the counted entry of source column j is its targets counted from the rows as the earlier source columns left them |
| Pipeline.EnhanceCountsAt | csventrifuge.py:267-272 | with no assumption on the book, target t of source column j counts the occurrences of each key in the rows entering that very turn |
| Pipeline.TurnRowsIndependent | csventrifuge.py:267-278 | when no target is also a source column, every turn reads its source column as the stage received it |
| Pipeline.CountTargetsSameColumn | csventrifuge.py:270 | the counts depend only on the source column |
| Pipeline.DeriveNone | csventrifuge.py:274-276 | a derived target is null exactly when its fallback is null and no table for it matches |
| Pipeline.Enhanced1None | csventrifuge.py:267-278 | an enhanced cell is null exactly when it was null and no (source, target) pair matches |
| Pipeline.MissingReport | csventrifuge.py:280-282 | with no assumption on the book, a (column, row) pair is reported exactly when the column is enhanced, the row's cell was null, and no turn for that column matched the row as the turn received it |
| Pipeline.EnhanceTargetsNone | csventrifuge.py:268-278 | a cell stays null through a source column's targets exactly when it was null and none of its column's turns matched the row |
| Pipeline.EnhancePassNone | csventrifuge.py:267-278 | a cell is null after the stage exactly when it was null and no turn for its column, in any source column, matched the row |
| Pipeline.MissingReportIndependent | csventrifuge.py:280-282 | when no target is also a source column, a pair is reported exactly when the cell was null and matched no enhancement in the rows entering the stage |
| Pipeline.EnhanceStreetExample | csventrifuge.py:267-282 | a building whose id is listed gets its street; the one that is not listed is reported |
| Audit.IdleNotes | csventrifuge.py:291-293 | a table reports at most one line per entry |
| Audit.IdleNotesSound | csventrifuge.py:291-293 | every line reported for a table comes from an entry with count 0 |
| Audit.IdleNotesComplete | csventrifuge.py:291-293 | every entry with count 0 is reported |
| Audit.IdleNotesOfUsed | csventrifuge.py:292 | a table whose entries were all used reports nothing |
| Audit.IdleNotesOfFresh | csventrifuge.py:291-293 | a table with no entry used reports every entry, in order |
| Audit.IdleNotesIndexed | csventrifuge.py:291-293 | a table's report is one line for each entry with count 0 and no other, in table order: line k is the note of the k-th idle entry |
| Audit.RuleAuditSound | csventrifuge.py:290-293 | every reported rule is an entry with count 0 of some column |
| Audit.RuleAuditComplete | csventrifuge.py:290-293 | every rule with count 0 is reported |
| Audit.RuleAuditIn | csventrifuge.py:290-293 | a rule is reported exactly when it stands in some column's table with count 0 |
| Audit.FilterAuditSound | csventrifuge.py:303-306 | every reported filter is an entry with count 0 of some column |
| Audit.FilterAuditComplete | csventrifuge.py:303-306 | every filter with count 0 is reported |
| Audit.FilterAuditIn | csventrifuge.py:303-306 | a filter is reported exactly when it stands in some column's table with count 0 |
| Audit.TargetAuditSound | csventrifuge.py:298-301 | every enhancement reported for a source column is an entry with count 0 of one of its target tables |
| Audit.TargetAuditComplete | csventrifuge.py:298-301 | every entry with count 0 of a source column's target tables is reported |
| Audit.EnhanceAuditSound | csventrifuge.py:297-301 | every reported enhancement is an entry with count 0 |
| Audit.EnhanceAuditComplete | csventrifuge.py:297-301 | every enhancement with count 0 is reported |
| Audit.EnhanceAuditIn | csventrifuge.py:297-301 | an enhancement is reported exactly when it stands in some (source, target) table with count 0 |
| Run.Centrifuge | csventrifuge.py:238-306 | a run never adds rows; the rule and filter books have one table per loaded column; the run reaches its audit exactly when the frame is not empty and some row is written, and otherwise reports no unused entry |
| Run.Run | csventrifuge.py:238-306 | the imperative run (loaders, column list, three stage loops) produces exactly the outcome of the composition |
| Run.RulebookLoaded | csventrifuge.py:149-168 | a freshly loaded rule book has distinct keys and no entry used |
| Run.FilterbookLoaded | csventrifuge.py:202-222 | a freshly loaded filter book has distinct keys and no entry used |
| Run.FilterTotalsLoaded | csventrifuge.py:246-254 | on loaded filters the stage keeps the survivors, and `filtered` is both the number dropped and the sum of the filter counts |
| Run.SubstituteCountsLoaded | csventrifuge.py:256-265 | on loaded rules every rule counts its matches, and `substitutions` is both the rule hits and the sum of the rule counts |
| Run.BooksCoverColumns | csventrifuge.py:239-244 | rules and enhancements exist for the frame's columns with a file; filters also exist for the enhanced targets |
| Run.CentrifugeFilters | csventrifuge.py:246-288 | the written rows are the survivors of the filters, in order, as substitution and enhancement left them; `filtered` is the number dropped and the sum of the filter counts; the audit is reached exactly when some row survives |
| Run.AllFilteredAborts | csventrifuge.py:287-288 | a single row whose value is filtered leaves nothing to write, so the run stops before reporting its idle rule |
| Run.CentrifugeSubstitutions | csventrifuge.py:256-265 | `substitutions` counts the rule hits in the filtered rows and equals the sum of the rule counts |
| Run.RecountReports | csventrifuge.py:291-293 | an entry counted against the rows is reported exactly when no row holds its key |
| Run.RuleReportedAt | csventrifuge.py:256-295 | rule i of column j is reported exactly when no filtered row holds its key in that column |
| Run.UnusedRules | csventrifuge.py:256-295 | a rule is reported exactly when some loaded rule matched no row reaching substitution |
| Run.CentrifugeUnusedRules | csventrifuge.py:238-306 | the run reports exactly the rules whose old value no surviving row holds in their column |
| Run.FilterReportedAt | csventrifuge.py:303-306 | after the filter stage, filter i of column j is reported exactly when no row left by the earlier filters holds its value |
| Run.CentrifugeUnusedFilters | csventrifuge.py:238-306 | the run reports exactly the filters whose value no row left by the earlier filters holds |
| Run.TargetsLoaded | csventrifuge.py:180-197 | the target tables of a directory have distinct keys and no entry used |
| Run.EnhanceBookLoaded | csventrifuge.py:171-199 | a freshly loaded enhancement book has no entry used |
| Run.TargetReportedAt | csventrifuge.py:297-301 | after counting, an enhancement of a source column is reported exactly when no row holds its key in the source column |
| Run.CountedReportsAt | csventrifuge.py:297-301 | a target table recounted against some rows reports an entry exactly when no row holds its key in the source column |
| Run.EnhancementReportedAt | csventrifuge.py:267-301 | with no assumption on the book, enhancement i of target t of source column j is reported exactly when no row entering that turn holds its key |
| Run.UnusedEnhancements | csventrifuge.py:267-301 | with no assumption on the book, an enhancement is reported exactly when its key occurs in no row of its own turn |
| Run.IdleEnhancementIndependent | csventrifuge.py:267-301 | when no target is also a source column, being idle in its turn is being idle in the rows entering the stage |
| Run.UnusedEnhancementsIndependent | csventrifuge.py:267-301 | when no target is also a source column, an enhancement is reported exactly when no row entering the stage holds its key |
| Run.CentrifugeUnusedEnhancements | csventrifuge.py:238-306 | the run reports exactly the enhancements whose key no row holds in its source column as its own turn received the substituted rows |
| Run.SelfEnhancementReported | tests/test_logging_unused.py:17-43 | a column that enhances itself (`enhance/<source>/foo/foo.csv`) makes a book that is not independent, and its idle entry "another" is reported |
| Run.StemOfRueFile | csventrifuge.py:182 | the file "rue.csv" gives the target "rue" |
| Run.EnhanceBookTargets | csventrifuge.py:175-185 | a column is a target of the loaded enhancement book exactly when some scanned directory has a file with that stem |
| Run.NewTargetRaises | csventrifuge.py:246-278 | as written, some stage names a column the frame lacks exactly when some enhancement target is not a frame column, which is exactly when loading grows the column list |
| Run.CentrifugeAsWritten | csventrifuge.py:238-284 | the run as written has no outcome exactly when some enhancement target is not a frame column; otherwise its outcome is Centrifuge's |
| Run.StreetBooks | csventrifuge.py:175-185 | a directory for `id_caclr_bat` holding `rue.csv` gives one enhancement table, for the target `rue`, and `rue` is the only target met |
| Run.StreetRun | csventrifuge.py:246-282 | with no rule and no filter file, the written rows are the enhance stage's rows and the missing report is over the target `rue` |
| Run.NewTargetAbortsAsWritten | csventrifuge.py:276 | for a frame with the one column `id_caclr_bat` and a file `rue.csv` for it, the run as written raises, while Centrifuge gives the listed building its street and reports the other one |
| Run.TargetHasFilterTableOnly | csventrifuge.py:242-244 | a target that only enhancement creates gets a filter table when it has a filter file, but never a rule table: the filter book is loaded for the grown column list, the rulebook for the frame's columns |
| Dicacolo.RStrip | sources/luxembourg-caclr-dicacolo.py:11 | `rstrip(" ")` removes only trailing spaces: a prefix is left that does not end in a space |
| Dicacolo.RStripUnique | sources/luxembourg-caclr-dicacolo.py:11 | the stripped string is the only one with those properties |
| Dicacolo.RStripIdempotent | sources/luxembourg-caclr-dicacolo.py:11 | stripping twice strips nothing more |
| Dicacolo.Slice | sources/luxembourg-caclr-dicacolo.py:11 | the slice is clipped at both ends to the line |
| Dicacolo.TrimGet | sources/luxembourg-caclr-dicacolo.py:10-11 | a field has at most the field's width, is a prefix of its slice, and only spaces of the slice are dropped |
| Dicacolo.TrimGetFromLine | sources/luxembourg-caclr-dicacolo.py:10-11 | every character of a field is the line's character at the same place |
| Dicacolo.TrimGetStripped | sources/luxembourg-caclr-dicacolo.py:10-11 | a field has no trailing space left |
| Dicacolo.LayoutContiguous | sources/luxembourg-caclr-dicacolo.py:31-36 | the six fields lie side by side from offset 0: five fields 40 wide, then the 4-character postal code at 200 |
| Dicacolo.ParseLine | sources/luxembourg-caclr-dicacolo.py:29-37 | a record has the six field names in order, each the trimmed field at its offset and within its width |
| Dicacolo.ParseLineLayout | sources/luxembourg-caclr-dicacolo.py:31-36 | on a full-length line each field is its own stretch of the line, stripped |
| Dicacolo.ParseShortLine | sources/luxembourg-caclr-dicacolo.py:36 | a line of at most 200 characters gives an empty postal code |
| Dicacolo.TrimGetInnerBlank | sources/luxembourg-caclr-dicacolo.py:11 | inner blanks stay and trailing ones go |
| Dicacolo.TrimGetCutsFirst | sources/luxembourg-caclr-dicacolo.py:11 | the field is cut before it is stripped |
| Dicacolo.ParseRecords | sources/luxembourg-caclr-dicacolo.py:27-39 | one record per line, in line order, each with the returned field names |
| Addresses.Take | sources/luxembourg_addresses.py:27 | `s[:n]` is the first n characters, or all of them when there are fewer |
| Addresses.Enriched | sources/luxembourg_addresses.py:27-28 | a row gains the commune code (the id's first three characters) and a copy of its street, and keeps everything else |
| Addresses.CommuneCodePrefix | sources/luxembourg_addresses.py:27 | the commune code is a prefix of the id, three characters long when the id is |
| Addresses.EnrichedTwice | sources/luxembourg_addresses.py:26-28 | enriching a row twice changes nothing more |
| Addresses.Enrich | sources/luxembourg_addresses.py:26-30 | every row is enriched in place, and the field names gain "rue_orig" and "code_commune" at their head |
| AddressExport.OutputColumnsDistinct | process_addresses.py:36-39 | the eight output columns are distinct |
| AddressExport.Street | process_addresses.py:19-22 | `addr:street` is empty for "Maison" and the street otherwise (a null street stays null) |
| AddressExport.Place | process_addresses.py:23-26 | `addr:place` is the locality for "Maison" and empty otherwise |
| AddressExport.Convert | process_addresses.py:18-39 | an output row has the eight columns in the select order, with the derived street and place |
| AddressExport.ConvertCells | process_addresses.py:19-32 | each output column holds what the conversion put there |
| AddressExport.Process | process_addresses.py:15-39 | the output frame has the output columns and one row per input row, in order, holding the input's cells under their new names and the derived street and place |
| AddressExport.ConvertAll | process_addresses.py:18-39 | every input row converts to a row with exactly the output columns, each holding the cell it copies or derives |
| AddressExport.StreetOrPlace | process_addresses.py:18-26 | a building never has both a street and a place: one of the two is empty |
| AddressExport.ConvertedAddress | process_addresses.py:18-32 | "Maison" moves the locality into the place; an ordinary street is kept and the place is empty |
| AddressExport.ProcessShape | process_addresses.py:36-39 | every output row has exactly the output columns, each named once |
| AddressExport.StreetAsWritten | process_addresses.py:19-22 | as written, a "Maison" takes its street from the column named "" |
| AddressExport.PlaceAsWritten | process_addresses.py:23-26 | as written, a building that is not a "Maison" takes its place from the column named "" |
| AddressExport.ConvertAsWritten | process_addresses.py:18-39 | as written, an output row has the output columns with the street and place read from column "" |
| AddressExport.ProcessAsWritten | process_addresses.py:15-39 | as written, the conversion succeeds exactly when the header has the seven input columns and a column named "" |
| AddressExport.AsWrittenFailsOnAddressList | process_addresses.py:15-26 | as written, a header of exactly the seven input columns makes the conversion fail, whatever the rows |
| AddressExport.AsWrittenStreetAndPlace | process_addresses.py:18-26 | as written, a "Maison" with a value under "" gets both a street and a place |

## Left out

- Reading the frame and the books from disk: polars' CSV reader, its
  separators, comments and schemas, and `os.listdir` are replaced by
  parameters, which hold the files already parsed into (old, new) pairs.
  Both halves of a pair are strings, so a book never holds a null key or a
  null replacement. polars reads an empty field of a rules, enhancement or
  filter file as null (`foo<TAB>` gives `RuleEntry(None)`, and `<TAB>why` a
  null key); such files are not modelled.
- The network downloads of the source scripts, the zip file, the latin-1 and
  utf-8-sig decoding, and `csv.DictReader` are outside the model. Rows are
  given as maps or lines.
- The argument parser, `is_valid_source`, `is_valid_output` and `load_module`
  with its dynamic imports are file-system and interpreter behaviour.
  `form_module` is modelled; `load_module` is not.
- Writing the CSV output, closing the file, and the text of the log lines are
  left out. The info lines with the `%.2f` percentages are floating point and
  are left out; the model returns the totals they print. Their division by
  zero is modelled (see Run.Centrifuge below).
- Run.Centrifuge: `unused` holds what the script logs at INFO level. The
  script configures logging at WARNING (csventrifuge.py:45), so on its own it
  shows neither those lines nor the percentages. They appear when the level is
  lowered to INFO, as tests/test_logging_unused.py:26-30 does. Log levels are
  not modelled.
- The debug lines ("Used rule …", "Keys are …", "Enhance book …",
  "Filter book …") only log; they are left out.
- Run.Centrifuge: a filter column or an enhancement target that the frame
  lacks reads as null, and an enhancement fills such a target. The source
  raises ColumnNotFound instead, before `write_csv` (csventrifuge.py:284), so
  nothing is written or reported. This happens for every target that
  `load_enhancements` appends to the key list (csventrifuge.py:183-184),
  since it is never added to the frame. On that target's first turn,
  `.otherwise(pl.col(target))` (csventrifuge.py:276) names the missing
  column. A filter file for such a target raises earlier, at
  csventrifuge.py:250, because the filter stage runs before the enhance
  stage. So as written an enhancement can only fill a column the frame
  already has. Centrifuge models the evident intent: the new column starts
  null and is filled where the source column matches. In particular, a
  filter on that column keeps every row and reports each of its entries as
  unused. Run.CentrifugeAsWritten models the source as written; see
  Findings.
- Run.Centrifuge: the percentage lines (csventrifuge.py:287-288) divide by the
  frame's height before and after the stages. An empty frame, or one whose
  every row is filtered out, raises ZeroDivisionError after the CSV is
  written. The model records this as `completed == false` with no unused
  entries. The null report (280-282) comes before the division and is kept.
- Pipeline.Matches: polars' `is_in` on a null value is taken as false ("not a
  member"), so null cells are never filtered, substituted or counted, and a
  row with a null in a filtered column is kept. The script pins only
  `polars>=0.20` (csventrifuge.py:4). Some polars releases let `is_in`
  propagate null instead (the `nulls_equal=False` behaviour). There `~is_in`
  is null, and `filter` would drop such a row without counting it, so
  `filtered == |rows| - |kept|` (Pipeline.FilterTotals) would fail. That
  behaviour is not modelled.
- Pipeline.MissingEnhancements: the null check is a set of (column, row)
  pairs. The order in which a Python set of columns is walked is not modelled.
- The code updates the frame target by target, so a later turn reads the
  earlier turns' results. The stage itself (`EnhancePass`, `EnhanceStage`)
  models that with no assumption. So do its counts (Pipeline.EnhanceCountsAt),
  its null report (Pipeline.MissingReport) and its unused report
  (Run.CentrifugeUnusedEnhancements), each stated against the rows entering
  each turn. The members below describe the stage as one snapshot of the
  incoming rows. That view holds only when no target is also a source column
  (`Independent`), so they require it.
- Pipeline.EnhanceTargetsCells: requires that the source column is none of its
  own targets (`!HasKey(targets, key)`), which excludes the book of
  tests/test_logging_unused.py:17-24. For such a book only whether a cell ends
  null is stated (Pipeline.EnhanceTargetsNone), not its final value.
- Pipeline.EnhanceTargetsCounts: requires `!HasKey(targets, key)`; the general
  counts are Pipeline.EnhanceTargetsTurn.
- Pipeline.EnhanceCounts: requires `Independent`; the general counts are
  Pipeline.EnhanceCountsAt.
- Pipeline.EnhanceCells: requires `Independent`; the cells' final values are
  not stated for a book whose targets feed later sources.
- Pipeline.MissingReportIndependent: requires `Independent`; the general report
  is Pipeline.MissingReport.
- Run.IdleEnhancementIndependent: requires `Independent`; the general
  statement is Run.EnhancementReportedAt.
- Run.UnusedEnhancementsIndependent: requires `Independent`; the general
  statement is Run.UnusedEnhancements.
- Dicacolo.ParseLine: a line that still carries its newline keeps it in the
  last field it reaches, because `rstrip(" ")` does not remove it. The model
  strips only spaces, as the code does, and takes the line as given.
- AddressExport.Street: `then("")` is taken as the empty literal. polars reads
  a bare string there as the column named "" (see Findings and
  AddressExport.StreetAsWritten).
- AddressExport.Place: `otherwise("")` is taken as the empty literal, and not as
  the column "" (see AddressExport.PlaceAsWritten).
- AddressExport.Convert: builds the output row from Street and Place, so the
  evident intent; AddressExport.ConvertAsWritten is the code as written.
- AddressExport.Process: models the evident intent; the script as written fails
  on the address list (AddressExport.ProcessAsWritten).
- AddressExport.Process requires every input row to have the seven input
  columns, since polars raises on a missing one. The numeric columns
  (`numero`, coordinates, postal code) are treated as text, because their
  types play no part in the conversion.
- Addresses.Enriched requires `id_geoportail` and `rue` on every row, where
  Python would raise KeyError; the error path is not modelled.
- The localities log and set of `luxembourg_addresses.get`, and the GeoJSON
  file and the symlink of `process_addresses`, are output only.

## Findings

| source | as written | input that shows it | evidently intended | confidence | as-written member | corrected member |
|---|---|---|---|---|---|---|
| process_addresses.py:19-26 | `then("")` and `otherwise("")` pass a bare string, which polars' `when`/`then`/`otherwise` parse as a column name, so both read the column "" | the address list, whose header has no column "": the conversion fails with a missing-column error for every input; a header that has "" copies it into the street of a "Maison" and the place of every other building | the empty string as a literal, so a building has a street or a place but never both | not executed | AddressExport.ProcessAsWritten, AddressExport.AsWrittenFailsOnAddressList, AddressExport.AsWrittenStreetAndPlace | AddressExport.Process, AddressExport.StreetOrPlace |
| csventrifuge.py:276 | `.otherwise(pl.col(target))` reads the target column from the frame, but `load_enhancements` appends a new target only to the key list (csventrifuge.py:183-184), never to the frame | a frame with the one column `id_caclr_bat` and an enhancement directory for it holding `rue.csv`: the enhance stage raises ColumnNotFound before anything is written | a target that is not yet a column starts null and gets the enhancement's value wherever the source column matches, as the appended key and the null report for `enhanced` (csventrifuge.py:280-282) expect | not executed | Run.CentrifugeAsWritten, Run.NewTargetRaises, Run.NewTargetAbortsAsWritten | Run.Centrifuge, Run.CentrifugeUnusedEnhancements, Pipeline.EnhanceStreetExample |

/**
 One run of `main` (csventrifuge.py:224-306) after the source has delivered
 its data frame: the three books are loaded, the filter, substitute and
 enhance stages run in that order, the enhanced columns are checked for
 nulls, and the unused entries are reported.
 */
module Run {
  import opened Wrappers
  import opened Dict
  import opened Books
  import opened Pipeline
  import opened Audit
  import opened Paths

  /** The rule files, enhancement directories and filter files of one source, by column. */
  datatype Sources = Sources(rules: map<string, Pairs>, enhancements: map<string, Listing>, filters: map<string, Pairs>)

  /**
   Everything a run produces: the written rows, the books with their counts,
   the totals and the reports. `completed` says whether the run got past the
   two percentage lines after the rows were written; when it did not,
   `unused` is empty, since no "Did not use" line is reached.
   */
  datatype Outcome = Outcome(
    rows: Table,
    rulebook: Rulebook,
    enhancebook: EnhanceBook,
    filterbook: FilterBook,
    filtered: nat,
    substitutions: nat,
    missing: set<(string, nat)>,
    completed: bool,
    unused: seq<Unused>)

  /**
   The run as one composition. The rulebook and the enhancement book are
   loaded for the frame's own columns; the filter book is loaded for the
   columns as `load_enhancements` has grown them. The percentage lines
   divide by the frame's height before and after the stages
   (csventrifuge.py:287-288), so an empty frame, or one whose every row is
   filtered out, ends the run after the rows are written and before the
   unused entries are reported.
   */
  function Centrifuge(columns: seq<string>, rows: Table, src: Sources): (o: Outcome)
    ensures |o.rows| <= |rows|
    ensures |o.rulebook| == |RulebookOf(src.rules, columns)| && |o.filterbook| == |FilterbookOf(src.filters, GrownColumns(src.enhancements, columns))|
    ensures o.completed <==> |rows| > 0 && |o.rows| > 0
    ensures o.completed ==> o.unused == RuleAudit(o.rulebook) + EnhanceAudit(o.enhancebook) + FilterAudit(o.filterbook)
    ensures !o.completed ==> o.unused == []
  {
    var rulebook := RulebookOf(src.rules, columns);
    var enhancebook := EnhanceBookOf(src.enhancements, columns);
    var enhanced := EnhancedOf(src.enhancements, columns);
    var filterbook := FilterbookOf(src.filters, GrownColumns(src.enhancements, columns));
    var f := FilterPass(rows, filterbook);
    var s := SubstitutePass(f.rows, rulebook);
    var e := EnhancePass(s.rows, enhancebook);
    FilterTotalsLoaded(rows, src.filters, GrownColumns(src.enhancements, columns));
    SubstituteCountsLoaded(f.rows, src.rules, columns);
    var completed := |rows| > 0 && |e.rows| > 0;
    Outcome(e.rows, s.book, e.book, f.book, f.filtered, s.substitutions,
            MissingEnhancements(e.rows, enhanced), completed,
            if completed then RuleAudit(s.book) + EnhanceAudit(e.book) + FilterAudit(f.book) else [])
  }

  /** `main` from `keys = list(df.columns)` to the last "Did not use" line. */
  method Run(columns: seq<string>, rows: Table, src: Sources) returns (o: Outcome)
    ensures o == Centrifuge(columns, rows, src)
  {
    var rulebook := LoadRules(src.rules, columns);
    var keys := new ColumnList(columns);
    var enhancebook, enhanced := LoadEnhancements(src.enhancements, keys);
    var filterbook := LoadFilters(src.filters, keys.names);
    var kept, filters, filtered := FilterStage(rows, filterbook);
    var substituted, rules, substitutions := SubstituteStage(kept, rulebook);
    var out, enhancements := EnhanceStage(substituted, enhancebook);
    var missing := MissingEnhancements(out, enhanced);
    var unused: seq<Unused> := [];
    var completed := |rows| > 0 && |out| > 0;
    if completed {
      unused := RuleAudit(rules) + EnhanceAudit(enhancements) + FilterAudit(filters);
    }
    o := Outcome(out, rules, enhancements, filters, filtered, substitutions, missing, completed, unused);
  }

  // ---------------------------------------------------------------------
  // What loading guarantees

  /** A loaded rule or filter book: one table per column, each with unique keys, every count 0. */
  predicate Loaded(book: Dict<Dict<Entry>>) {
    UniqueKeys(book) && UniqueTables(book) && FreshBook(book)
  }

  lemma RulebookLoaded(files: map<string, Pairs>, keys: seq<string>)
    ensures Loaded(RulebookOf(files, keys))
  {
    var book := RulebookOf(files, keys);
    BookOfFrom(files, keys, RuleFile);
    forall j | 0 <= j < |book| ensures UniqueKeys(book[j].1) && Fresh(book[j].1) {
      RuleFileLoaded(files[book[j].0]);
    }
  }

  lemma FilterbookLoaded(files: map<string, Pairs>, keys: seq<string>)
    ensures Loaded(FilterbookOf(files, keys))
  {
    var book := FilterbookOf(files, keys);
    BookOfFrom(files, keys, FilterFile);
    forall j | 0 <= j < |book| ensures UniqueKeys(book[j].1) && Fresh(book[j].1) {
      FilterFileLoaded(files[book[j].0]);
    }
  }

  /** The rows, the count of dropped rows and the filter counts, for a loaded filter book. */
  lemma FilterTotalsLoaded(rows: Table, files: map<string, Pairs>, keys: seq<string>)
    ensures var book := FilterbookOf(files, keys);
      var f := FilterPass(rows, book);
      && f.rows == Survivors(rows, book)
      && f.filtered == |rows| - |f.rows|
      && f.filtered == BookTotal(f.book)
  {
    var book := FilterbookOf(files, keys);
    FilterbookLoaded(files, keys);
    FilterKeepsSurvivors(rows, book);
    FilterTotals(rows, book);
  }

  /** The rule counts and `substitutions`, for a loaded rulebook. */
  lemma SubstituteCountsLoaded(rows: Table, files: map<string, Pairs>, keys: seq<string>)
    ensures var book := RulebookOf(files, keys);
      var s := SubstitutePass(rows, book);
      && |s.book| == |book|
      && (forall j :: 0 <= j < |book| ==> s.book[j] == (book[j].0, Recount(book[j].1, rows, book[j].0)))
      && s.substitutions == RuleHits(rows, book)
      && s.substitutions == BookTotal(s.book)
  {
    var book := RulebookOf(files, keys);
    RulebookLoaded(files, keys);
    SubstituteCounts(rows, book);
    SubstituteTotals(rows, book);
  }

  /**
   Which columns get a book: rules and enhancement directories are looked up
   for the frame's columns only, filters also for the enhancement targets
   appended to the column list (csventrifuge.py:242-244).
   */
  lemma BooksCoverColumns(columns: seq<string>, src: Sources, k: string)
    ensures HasKey(RulebookOf(src.rules, columns), k) <==> k in columns && k in src.rules
    ensures HasKey(EnhanceBookOf(src.enhancements, columns), k) <==> k in columns && k in src.enhancements
    ensures HasKey(FilterbookOf(src.filters, GrownColumns(src.enhancements, columns)), k) <==>
      (k in columns || k in AllTargets(src.enhancements, columns)) && k in src.filters
  {
    BookOfGet(src.rules, columns, RuleFile, k);
    BookOfGet(src.enhancements, columns, TargetsOf, k);
    BookOfGet(src.filters, GrownColumns(src.enhancements, columns), FilterFile, k);
    AppendNewGrows(columns, AllTargets(src.enhancements, columns));
  }

  // ---------------------------------------------------------------------
  // The run, end to end

  /**
   The rows written are the rows that no filter drops, in their order, as
   substitution and enhancement left them, and `filtered` counts the others;
   it is also the sum of the filter counts. The run reaches its audit
   exactly when some row survives the filters.
   */
  lemma CentrifugeFilters(columns: seq<string>, rows: Table, src: Sources)
    ensures var book := FilterbookOf(src.filters, GrownColumns(src.enhancements, columns));
      var o := Centrifuge(columns, rows, src);
      && o.rows == EnhancePass(SubstitutePass(Survivors(rows, book), RulebookOf(src.rules, columns)).rows, EnhanceBookOf(src.enhancements, columns)).rows
      && o.filtered == |rows| - |Survivors(rows, book)|
      && o.filtered == BookTotal(o.filterbook)
      && (o.completed <==> |Survivors(rows, book)| > 0)
  {
    var book := FilterbookOf(src.filters, GrownColumns(src.enhancements, columns));
    FilterTotalsLoaded(rows, src.filters, GrownColumns(src.enhancements, columns));
  }

  /**
   The case of the percentage line's division by zero: one row `foo = "val"`
   and a filter file for `foo` holding "val". The row is dropped, so the run
   never prints its unused rule, although the rule file's entry is idle.
   */
  lemma AllFilteredAborts()
    ensures var src := Sources(map["foo" := [("unused", "new")]], map[], map["foo" := [("val", "why")]]);
      var o := Centrifuge(["foo"], [map["foo" := Some("val")]], src);
      && o.rows == []
      && !o.completed && o.unused == []
      && UnusedRule("foo", "unused", "new") in RuleAudit(o.rulebook)
  {
    var src := Sources(map["foo" := [("unused", "new")]], map[], map["foo" := [("val", "why")]]);
    var rows: Table := [map["foo" := Some("val")]];
    var u := UnusedRule("foo", "unused", "new");
    var book := FilterbookOf(src.filters, GrownColumns(src.enhancements, ["foo"]));
    assert GrownColumns(src.enhancements, ["foo"]) == ["foo"];
    var pairs: Pairs := [("val", "why")];
    assert pairs[..0] == [];
    assert FilterFile(pairs) == [("val", NewFilter(pairs[0]))];
    assert book == [("foo", FilterFile(pairs))];
    assert Keys(book[0].1) == ["val"];
    assert !Survives(rows[0], book);
    assert Survivors(rows, book) == [];
    CentrifugeFilters(["foo"], rows, src);
    var kept := FilterPass(rows, book).rows;
    assert kept == [];
    var rulebook := RulebookOf(src.rules, ["foo"]);
    var rule: Pairs := [("unused", "new")];
    assert rule[..0] == [];
    assert RuleFile(rule) == [("unused", NewRule(rule[0]))];
    assert rulebook == [("foo", RuleFile(rule))];
    assert Occ(kept, "foo", "unused") == 0;
    assert IdleRule(kept, rulebook, 0, 0, u);
    CentrifugeUnusedRules(["foo"], rows, src, u);
  }

  /** `substitutions` is the number of cells of the kept rows that have a rule, and the sum of the rule counts. */
  lemma CentrifugeSubstitutions(columns: seq<string>, rows: Table, src: Sources)
    ensures var kept := FilterPass(rows, FilterbookOf(src.filters, GrownColumns(src.enhancements, columns))).rows;
      var o := Centrifuge(columns, rows, src);
      && o.substitutions == RuleHits(kept, RulebookOf(src.rules, columns))
      && o.substitutions == BookTotal(o.rulebook)
  {
    var kept := FilterPass(rows, FilterbookOf(src.filters, GrownColumns(src.enhancements, columns))).rows;
    SubstituteCountsLoaded(kept, src.rules, columns);
  }

  /** Rule `i` of column `j` has no occurrence among the rows the filters kept; `u` is its line. */
  predicate IdleRule(kept: Table, book: Rulebook, j: int, i: int, u: Unused) {
    0 <= j < |book| && 0 <= i < |book[j].1|
    && Occ(kept, book[j].0, book[j].1[i].0) == 0
    && u == UnusedRule(book[j].0, book[j].1[i].0, book[j].1[i].1.Text())
  }

  /** Some rule of the book is idle and reported as `u`. */
  predicate SomeIdleRule(kept: Table, book: Rulebook, u: Unused) {
    exists j, i :: 0 <= j < |book| && 0 <= i < |book[j].1| && IdleRule(kept, book, j, i, u)
  }

  /** Counting then auditing a fresh table: an entry is reported exactly when its key does not occur. */
  lemma RecountReports(entries: Dict<Entry>, rows: Table, col: string, i: int, u: Unused, note: ((string, Entry)) -> Unused)
    requires Fresh(entries) && 0 <= i < |entries|
    requires forall p: (string, Entry), q: (string, Entry) :: p.0 == q.0 && p.1.Text() == q.1.Text() ==> note(p) == note(q)
    ensures ReportsEntry(Recount(entries, rows, col), note, i, u) <==>
      Occ(rows, col, entries[i].0) == 0 && u == note(entries[i])
  {
    RecountAt(entries, rows, col);
  }

  /** One rule entry after counting: it is reported exactly when it is idle. */
  lemma RuleReportedAt(kept: Table, book: Rulebook, j: int, i: int, u: Unused)
    requires Loaded(book)
    ensures ReportsRule(SubstitutePass(kept, book).book, j, i, u) <==> IdleRule(kept, book, j, i, u)
  {
    SubstituteCounts(kept, book);
    if 0 <= j < |book| && 0 <= i < |book[j].1| {
      RecountReports(book[j].1, kept, book[j].0, i, u, RuleNote(book[j].0));
    }
  }

  /** For a loaded rulebook, the rule audit after substitution reports exactly the idle rules. */
  lemma UnusedRules(kept: Table, book: Rulebook, u: Unused)
    requires Loaded(book)
    ensures u in RuleAudit(SubstitutePass(kept, book).book) <==> SomeIdleRule(kept, book, u)
  {
    var counted := SubstitutePass(kept, book).book;
    if u in RuleAudit(counted) {
      var j, i := RuleAuditSound(counted, u);
      RuleReportedAt(kept, book, j, i, u);
      assert IdleRule(kept, book, j, i, u);
    }
    if SomeIdleRule(kept, book, u) {
      var j, i :| 0 <= j < |book| && 0 <= i < |book[j].1| && IdleRule(kept, book, j, i, u);
      RuleReportedAt(kept, book, j, i, u);
      RuleAuditComplete(counted, j, i, u);
    }
  }

  /**
   The "Did not use … rule" lines of a run: exactly the rules whose key never
   occurs in its column among the rows the filters kept (csventrifuge.py:290-295).
   */
  lemma CentrifugeUnusedRules(columns: seq<string>, rows: Table, src: Sources, u: Unused)
    ensures var kept := FilterPass(rows, FilterbookOf(src.filters, GrownColumns(src.enhancements, columns))).rows;
      u in RuleAudit(Centrifuge(columns, rows, src).rulebook) <==> SomeIdleRule(kept, RulebookOf(src.rules, columns), u)
  {
    var kept := FilterPass(rows, FilterbookOf(src.filters, GrownColumns(src.enhancements, columns))).rows;
    var book := RulebookOf(src.rules, columns);
    assert Centrifuge(columns, rows, src).rulebook == SubstitutePass(kept, book).book;
    RulebookLoaded(src.rules, columns);
    UnusedRules(kept, book, u);
  }

  /** Filter `i` of column `j` matches none of the rows still there when column `j` is filtered. */
  predicate IdleFilter(rows: Table, book: FilterBook, j: int, i: int, u: Unused) {
    0 <= j < |book| && 0 <= i < |book[j].1|
    && Occ(Survivors(rows, book[..j]), book[j].0, book[j].1[i].0) == 0
    && u == UnusedFilter(book[j].0, book[j].1[i].0)
  }

  /** One filter entry after counting: it is reported exactly when it is idle. */
  lemma FilterReportedAt(rows: Table, book: FilterBook, j: int, i: int, u: Unused)
    requires Loaded(book)
    ensures ReportsFilter(FilterPass(rows, book).book, j, i, u) <==> IdleFilter(rows, book, j, i, u)
  {
    if 0 <= j < |book| && 0 <= i < |book[j].1| {
      FilterCounts(rows, book, j);
      RecountReports(book[j].1, Survivors(rows, book[..j]), book[j].0, i, u, FilterNote(book[j].0));
    }
  }

  /** Some filter of the book is idle and reported as `u`. */
  predicate SomeIdleFilter(rows: Table, book: FilterBook, u: Unused) {
    exists j, i :: 0 <= j < |book| && 0 <= i < |book[j].1| && IdleFilter(rows, book, j, i, u)
  }

  /**
   The "Did not use filter" lines of a run: exactly the filters whose value
   never occurs in its column among the rows that the earlier filter columns
   left (csventrifuge.py:303-306).
   */
  lemma CentrifugeUnusedFilters(columns: seq<string>, rows: Table, src: Sources, u: Unused)
    ensures u in FilterAudit(Centrifuge(columns, rows, src).filterbook) <==>
      SomeIdleFilter(rows, FilterbookOf(src.filters, GrownColumns(src.enhancements, columns)), u)
  {
    var book := FilterbookOf(src.filters, GrownColumns(src.enhancements, columns));
    var counted := FilterPass(rows, book).book;
    assert Centrifuge(columns, rows, src).filterbook == counted;
    FilterbookLoaded(src.filters, GrownColumns(src.enhancements, columns));
    if u in FilterAudit(counted) {
      var j, i := FilterAuditSound(counted, u);
      FilterReportedAt(rows, book, j, i, u);
      assert IdleFilter(rows, book, j, i, u);
    }
    if SomeIdleFilter(rows, book, u) {
      var j, i :| 0 <= j < |book| && 0 <= i < |book[j].1| && IdleFilter(rows, book, j, i, u);
      FilterReportedAt(rows, book, j, i, u);
      FilterAuditComplete(counted, j, i, u);
    }
  }

  /** A loaded enhancement book: one entry per source column, every target table with unique keys and unused. */
  predicate LoadedTargets(book: EnhanceBook) {
    UniqueKeys(book)
    && forall j, t :: 0 <= j < |book| && 0 <= t < |book[j].1| ==> UniqueKeys(book[j].1[t].1) && Fresh(book[j].1[t].1)
  }

  /** Each target table of a directory is a freshly loaded rule file. */
  lemma TargetsLoaded(listing: Listing)
    ensures forall t :: 0 <= t < |TargetsOf(listing)| ==>
      UniqueKeys(TargetsOf(listing)[t].1) && Fresh(TargetsOf(listing)[t].1)
  {
    var targets := TargetsOf(listing);
    PutAllFrom(listing, FileKey, FileTable);
    forall t | 0 <= t < |targets| ensures UniqueKeys(targets[t].1) && Fresh(targets[t].1) {
      assert targets[t] in targets;
      var f :| 0 <= f < |listing| && targets[t] == (FileKey(listing[f]), FileTable(listing[f]));
      RuleFileLoaded(listing[f].1);
    }
  }

  lemma EnhanceBookLoaded(dirs: map<string, Listing>, keys: seq<string>)
    ensures LoadedTargets(EnhanceBookOf(dirs, keys))
  {
    var book := EnhanceBookOf(dirs, keys);
    BookOfFrom(dirs, keys, TargetsOf);
    forall j | 0 <= j < |book|
      ensures forall t :: 0 <= t < |book[j].1| ==> UniqueKeys(book[j].1[t].1) && Fresh(book[j].1[t].1)
    {
      TargetsLoaded(dirs[book[j].0]);
    }
  }

  /**
   Key `i` of target table `t` of source column `j` never occurs in the
   source column of the rows as that turn received them (`TurnRows`): after
   the earlier source columns and the earlier targets of its own column.
   */
  predicate IdleEnhancement(rows: Table, book: EnhanceBook, j: int, t: int, i: int, u: Unused) {
    0 <= j < |book| && 0 <= t < |book[j].1| && 0 <= i < |book[j].1[t].1|
    && Occ(TurnRows(rows, book, j, t), book[j].0, book[j].1[t].1[i].0) == 0
    && u == UnusedEnhancement(book[j].0, book[j].1[t].1[i].0, book[j].1[t].0, book[j].1[t].1[i].1.Text())
  }

  predicate SomeIdleEnhancement(rows: Table, book: EnhanceBook, u: Unused) {
    exists j, t, i :: 0 <= j < |book| && 0 <= t < |book[j].1| && 0 <= i < |book[j].1[t].1| && IdleEnhancement(rows, book, j, t, i, u)
  }

  /** Key `i` of target table `t` of source column `j` never occurs in that source column of the rows entering the stage. */
  predicate IdleAtStart(rows: Table, book: EnhanceBook, j: int, t: int, i: int, u: Unused) {
    0 <= j < |book| && 0 <= t < |book[j].1| && 0 <= i < |book[j].1[t].1|
    && Occ(rows, book[j].0, book[j].1[t].1[i].0) == 0
    && u == UnusedEnhancement(book[j].0, book[j].1[t].1[i].0, book[j].1[t].0, book[j].1[t].1[i].1.Text())
  }

  predicate SomeIdleAtStart(rows: Table, book: EnhanceBook, u: Unused) {
    exists j, t, i :: 0 <= j < |book| && 0 <= t < |book[j].1| && 0 <= i < |book[j].1[t].1| && IdleAtStart(rows, book, j, t, i, u)
  }

  /** The counted target tables of one source column: an entry is reported exactly when its key does not occur. */
  lemma TargetReportedAt(targets: Dict<Dict<Entry>>, rows: Table, key: string, t: int, i: int, u: Unused)
    requires forall t :: 0 <= t < |targets| ==> Fresh(targets[t].1)
    ensures ReportsTarget(key, CountTargets(targets, rows, key), t, i, u) <==>
      0 <= t < |targets| && 0 <= i < |targets[t].1| && Occ(rows, key, targets[t].1[i].0) == 0
      && u == UnusedEnhancement(key, targets[t].1[i].0, targets[t].0, targets[t].1[i].1.Text())
  {
    if 0 <= t < |targets| && 0 <= i < |targets[t].1| {
      CountTargetsAt(targets, rows, key);
      RecountReports(targets[t].1, rows, key, i, u, EnhancementNote(key, targets[t].0));
    }
  }

  /** A counted target table at (`j`, `t`) recounted against `turn`: an entry is reported exactly when its key does not occur there. */
  lemma CountedReportsAt(counted: EnhanceBook, book: EnhanceBook, turn: Table, j: int, t: int, i: int, u: Unused)
    requires 0 <= j < |book| && 0 <= t < |book[j].1| && Fresh(book[j].1[t].1)
    requires |counted| == |book| && counted[j].0 == book[j].0 && |counted[j].1| == |book[j].1|
    requires counted[j].1[t] == (book[j].1[t].0, Recount(book[j].1[t].1, turn, book[j].0))
    ensures ReportsEnhancement(counted, j, t, i, u) <==>
      0 <= i < |book[j].1[t].1| && Occ(turn, book[j].0, book[j].1[t].1[i].0) == 0
      && u == UnusedEnhancement(book[j].0, book[j].1[t].1[i].0, book[j].1[t].0, book[j].1[t].1[i].1.Text())
  {
    if 0 <= i < |book[j].1[t].1| {
      RecountReports(book[j].1[t].1, turn, book[j].0, i, u, EnhancementNote(book[j].0, book[j].1[t].0));
    } else {
      RecountAt(book[j].1[t].1, turn, book[j].0);
    }
  }

  /** One enhancement entry after the stage: it is reported exactly when it is idle in its own turn. */
  lemma EnhancementReportedAt(rows: Table, book: EnhanceBook, j: int, t: int, i: int, u: Unused)
    requires LoadedTargets(book)
    ensures ReportsEnhancement(EnhancePass(rows, book).book, j, t, i, u) <==> IdleEnhancement(rows, book, j, t, i, u)
  {
    var counted := EnhancePass(rows, book).book;
    if 0 <= j < |book| {
      EnhancePassTurn(rows, book, j);
      if 0 <= t < |book[j].1| {
        EnhanceCountsAt(rows, book, j, t);
        CountedReportsAt(counted, book, TurnRows(rows, book, j, t), j, t, i, u);
      }
    }
  }

  /** The enhancement audit after the stage reports exactly the entries idle in their own turn. */
  lemma UnusedEnhancements(rows: Table, book: EnhanceBook, u: Unused)
    requires LoadedTargets(book)
    ensures u in EnhanceAudit(EnhancePass(rows, book).book) <==> SomeIdleEnhancement(rows, book, u)
  {
    var counted := EnhancePass(rows, book).book;
    if u in EnhanceAudit(counted) {
      var j, t, i := EnhanceAuditSound(counted, u);
      EnhancementReportedAt(rows, book, j, t, i, u);
      assert IdleEnhancement(rows, book, j, t, i, u);
    }
    if SomeIdleEnhancement(rows, book, u) {
      var j, t, i :| 0 <= j < |book| && 0 <= t < |book[j].1| && 0 <= i < |book[j].1[t].1| && IdleEnhancement(rows, book, j, t, i, u);
      EnhancementReportedAt(rows, book, j, t, i, u);
      EnhanceAuditComplete(counted, j, t, i, u);
    }
  }

  /** When no target is also a source, idle in its own turn is idle in the rows entering the stage. */
  lemma IdleEnhancementIndependent(rows: Table, book: EnhanceBook, j: int, t: int, i: int, u: Unused)
    requires Independent(book)
    ensures IdleEnhancement(rows, book, j, t, i, u) <==> IdleAtStart(rows, book, j, t, i, u)
  {
    if 0 <= j < |book| && 0 <= t < |book[j].1| {
      TurnRowsIndependent(rows, book, j, t);
      OccSameColumn(TurnRows(rows, book, j, t), rows, book[j].0, if 0 <= i < |book[j].1[t].1| then book[j].1[t].1[i].0 else "");
    }
  }

  /** When no target is also a source, the enhancement audit reports exactly the entries whose key never occurs at the start. */
  lemma UnusedEnhancementsIndependent(rows: Table, book: EnhanceBook, u: Unused)
    requires Independent(book) && LoadedTargets(book)
    ensures u in EnhanceAudit(EnhancePass(rows, book).book) <==> SomeIdleAtStart(rows, book, u)
  {
    UnusedEnhancements(rows, book, u);
    if SomeIdleEnhancement(rows, book, u) {
      var j, t, i :| 0 <= j < |book| && 0 <= t < |book[j].1| && 0 <= i < |book[j].1[t].1| && IdleEnhancement(rows, book, j, t, i, u);
      IdleEnhancementIndependent(rows, book, j, t, i, u);
    }
    if SomeIdleAtStart(rows, book, u) {
      var j, t, i :| 0 <= j < |book| && 0 <= t < |book[j].1| && 0 <= i < |book[j].1[t].1| && IdleAtStart(rows, book, j, t, i, u);
      IdleEnhancementIndependent(rows, book, j, t, i, u);
    }
  }

  /**
   The "Did not use enhancement" lines of a run (csventrifuge.py:297-301):
   exactly the entries whose key never occurs in the source column of the
   rows as their own turn of the enhance stage received them.
   */
  lemma CentrifugeUnusedEnhancements(columns: seq<string>, rows: Table, src: Sources, u: Unused)
    ensures var kept := FilterPass(rows, FilterbookOf(src.filters, GrownColumns(src.enhancements, columns))).rows;
      var substituted := SubstitutePass(kept, RulebookOf(src.rules, columns)).rows;
      u in EnhanceAudit(Centrifuge(columns, rows, src).enhancebook) <==>
      SomeIdleEnhancement(substituted, EnhanceBookOf(src.enhancements, columns), u)
  {
    var kept := FilterPass(rows, FilterbookOf(src.filters, GrownColumns(src.enhancements, columns))).rows;
    var substituted := SubstitutePass(kept, RulebookOf(src.rules, columns)).rows;
    var book := EnhanceBookOf(src.enhancements, columns);
    assert Centrifuge(columns, rows, src).enhancebook == EnhancePass(substituted, book).book;
    EnhanceBookLoaded(src.enhancements, columns);
    UnusedEnhancements(substituted, book, u);
  }

  /**
   A source column that enhances itself, as in tests/test_logging_unused.py:
   column `foo` holding "val", and a directory `foo` whose `foo.csv` maps
   "another" to "bar". The book is not independent, and the audit reports
   the entry, since "another" never occurs in the column its turn read.
   */
  lemma SelfEnhancementReported()
    ensures var book: EnhanceBook := [("foo", [("foo", [("another", RuleEntry("bar", 0))])])];
      var rows: Table := [map["foo" := Some("val")]];
      && !Independent(book)
      && UnusedEnhancement("foo", "another", "foo", "bar") in EnhanceAudit(EnhancePass(rows, book).book)
  {
    var book: EnhanceBook := [("foo", [("foo", [("another", RuleEntry("bar", 0))])])];
    var rows: Table := [map["foo" := Some("val")]];
    var u := UnusedEnhancement("foo", "another", "foo", "bar");
    assert HasKey(book, book[0].1[0].0);
    assert book[..0] == [] && book[0].1[..0] == [];
    assert TurnRows(rows, book, 0, 0) == rows;
    assert Occ(rows, "foo", "another") == 0;
    assert IdleEnhancement(rows, book, 0, 0, 0, u);
    UnusedEnhancements(rows, book, u);
  }

  /** The target named by the file `rue.csv`. */
  lemma StemOfRueFile()
    ensures Stem("rue.csv") == "rue"
  {
    var name := "rue.csv";
    assert name[3] == '.' && name[4] != '.' && name[5] != '.' && name[6] != '.';
    assert RFind(name, '.') == 3;
    assert name[..3] == "rue";
  }

  /**
   A column that only an enhancement creates gets a filter table but never a
   rule table: a frame with the one column `id`, a directory `id` holding
   `rue.csv`, and a rule file and a filter file for `rue`. The filter stage
   runs before the target exists (see `Centrifuge`).
   */
  lemma TargetHasFilterTableOnly()
    ensures var src := Sources(map["rue" := [("Maison", "x")]],
                               map["id" := [("rue.csv", [])]],
                               map["rue" := [("Maison", "why")]]);
      && RulebookOf(src.rules, ["id"]) == []
      && Keys(FilterbookOf(src.filters, GrownColumns(src.enhancements, ["id"]))) == ["rue"]
  {
    var rules: map<string, Pairs> := map["rue" := [("Maison", "x")]];
    var dirs: map<string, Listing> := map["id" := [("rue.csv", [])]];
    var filters: map<string, Pairs> := map["rue" := [("Maison", "why")]];
    assert "id" !in rules && "id" !in filters;
    assert RulebookOf(rules, ["id"]) == RulebookOf(rules, []);
    StemOfRueFile();
    assert Stems(dirs["id"]) == ["rue"];
    assert AllTargets(dirs, ["id"]) == ["rue"];
    var grown := GrownColumns(dirs, ["id"]);
    assert grown == ["id", "rue"];
    assert grown[..1] == ["id"];
    assert FilterbookOf(filters, grown[..1]) == [];
    assert FilterbookOf(filters, grown) == [("rue", FilterFile(filters["rue"]))];
  }

  // ---------------------------------------------------------------------
  // The run as written: a target that is not yet a column of the frame

  /**
   Some stage names a column the frame does not have, so polars raises
   ColumnNotFound before anything is written: the filter stage names each
   filter column (csventrifuge.py:250), the enhance stage each target, in
   `.otherwise(pl.col(target))` (csventrifuge.py:276). The frame keeps the
   columns it started with; `load_enhancements` grows only the key list.
   */
  predicate RaisesColumnNotFound(columns: seq<string>, src: Sources) {
    var filterbook := FilterbookOf(src.filters, GrownColumns(src.enhancements, columns));
    var enhancebook := EnhanceBookOf(src.enhancements, columns);
    (exists c :: c in Keys(filterbook) && c !in columns)
    || (exists j, t :: 0 <= j < |enhancebook| && 0 <= t < |enhancebook[j].1| && enhancebook[j].1[t].0 !in columns)
  }

  /** The targets of the loaded enhancement book are the targets met while loading. */
  lemma EnhanceBookTargets(dirs: map<string, Listing>, keys: seq<string>, t: string)
    ensures IsTarget(EnhanceBookOf(dirs, keys), t) <==> t in AllTargets(dirs, keys)
  {
    var book := EnhanceBookOf(dirs, keys);
    BookOfFrom(dirs, keys, TargetsOf);
    AllTargetsIn(dirs, keys, t);
    if IsTarget(book, t) {
      var j :| 0 <= j < |book| && HasKey(book[j].1, t);
      var k := book[j].0;
      GetUnique(book, j);
      BookOfGet(dirs, keys, TargetsOf, k);
      PutAllHasKey(dirs[k], FileKey, FileTable, t);
      var i :| 0 <= i < |dirs[k]| && FileKey(dirs[k][i]) == t;
      assert Stems(dirs[k])[i] == t;
      assert Provides(dirs, k, t);
    }
    if t in AllTargets(dirs, keys) {
      var k :| k in keys && Provides(dirs, k, t);
      BookOfGet(dirs, keys, TargetsOf, k);
      var j :| 0 <= j < |book| && book[j] == (k, TargetsOf(dirs[k]));
      var i :| 0 <= i < |Stems(dirs[k])| && Stems(dirs[k])[i] == t;
      PutAllHasKey(dirs[k], FileKey, FileTable, t);
      assert FileKey(dirs[k][i]) == t;
      assert HasKey(book[j].1, t);
    }
  }

  /**
   The run as written stops exactly when some enhancement file is for a
   target that is not a column of the frame, that is, exactly when
   `load_enhancements` grows the column list at all.
   */
  lemma NewTargetRaises(columns: seq<string>, src: Sources)
    ensures RaisesColumnNotFound(columns, src) <==> exists t :: t in AllTargets(src.enhancements, columns) && t !in columns
    ensures RaisesColumnNotFound(columns, src) <==> GrownColumns(src.enhancements, columns) != columns
  {
    var ts := AllTargets(src.enhancements, columns);
    var grown := GrownColumns(src.enhancements, columns);
    var enhancebook := EnhanceBookOf(src.enhancements, columns);
    forall j, t | 0 <= j < |enhancebook| && 0 <= t < |enhancebook[j].1| ensures enhancebook[j].1[t].0 in ts {
      assert HasKey(enhancebook[j].1, enhancebook[j].1[t].0);
      EnhanceBookTargets(src.enhancements, columns, enhancebook[j].1[t].0);
    }
    forall c | c in Keys(FilterbookOf(src.filters, grown)) ensures c in columns || c in ts {
      InKeys(FilterbookOf(src.filters, grown), c);
      BooksCoverColumns(columns, src, c);
    }
    AppendNewGrows(columns, ts);
    if exists t :: t in ts && t !in columns {
      var t :| t in ts && t !in columns;
      EnhanceBookTargets(src.enhancements, columns, t);
      var j :| 0 <= j < |enhancebook| && HasKey(enhancebook[j].1, t);
      var i :| 0 <= i < |enhancebook[j].1| && enhancebook[j].1[i].0 == t;
      assert t in grown;
    } else {
      if |grown| > |columns| {
        assert false;
      }
      assert grown == columns;
    }
  }

  /**
   `main` as written: no outcome at all when a stage raises ColumnNotFound,
   otherwise the run that `Centrifuge` describes. It completes only for
   enhancement files whose targets are already columns.
   */
  function CentrifugeAsWritten(columns: seq<string>, rows: Table, src: Sources): (r: Option<Outcome>)
    ensures r.None? <==> exists t :: t in AllTargets(src.enhancements, columns) && t !in columns
    ensures r.Some? <==> GrownColumns(src.enhancements, columns) == columns
    ensures r.Some? ==> r.value == Centrifuge(columns, rows, src)
  {
    NewTargetRaises(columns, src);
    if RaisesColumnNotFound(columns, src) then None else Some(Centrifuge(columns, rows, src))
  }

  /** A source with no rule or filter file and one directory, for `id_caclr_bat`, holding `rue.csv`. */
  function StreetSources(): Sources {
    Sources(map[], map["id_caclr_bat" := [("rue.csv", [("79281", "Rue des Jardins")])]], map[])
  }

  function StreetRows(): Table {
    [map["id_caclr_bat" := Some("79281")], map["id_caclr_bat" := Some("10000")]]
  }

  /** The enhancement book of the street example, as `EnhanceStreetExample` states it. */
  function StreetBook(): EnhanceBook {
    [("id_caclr_bat", [("rue", [("79281", RuleEntry("Rue des Jardins", 0))])])]
  }

  /** The books loaded for `StreetSources`: one enhancement table, for the new target `rue`. */
  lemma StreetBooks()
    ensures EnhanceBookOf(StreetSources().enhancements, ["id_caclr_bat"]) == StreetBook()
    ensures AllTargets(StreetSources().enhancements, ["id_caclr_bat"]) == ["rue"]
  {
    var pairs: Pairs := [("79281", "Rue des Jardins")];
    var listing: Listing := [("rue.csv", pairs)];
    var dirs := StreetSources().enhancements;
    var columns := ["id_caclr_bat"];
    StemOfRueFile();
    assert pairs[..0] == [] && listing[..0] == [] && columns[..0] == [];
    assert RuleFile(pairs) == [("79281", RuleEntry("Rue des Jardins", 0))];
    assert FileKey(listing[0]) == "rue" && FileTable(listing[0]) == RuleFile(pairs);
    assert TargetsOf(listing) == [("rue", RuleFile(pairs))];
    assert Stems(listing) == ["rue"];
  }

  /** With no filter and no rule, the street run is the enhance stage alone. */
  lemma StreetRun()
    ensures var o := Centrifuge(["id_caclr_bat"], StreetRows(), StreetSources());
      o.rows == EnhancePass(StreetRows(), StreetBook()).rows && o.missing == MissingEnhancements(o.rows, {"rue"})
  {
    var src := StreetSources();
    var columns := ["id_caclr_bat"];
    var rows := StreetRows();
    StreetBooks();
    BookOfNone(GrownColumns(src.enhancements, columns), FilterFile);
    BookOfNone(columns, RuleFile);
    assert FilterPass(rows, []).rows == rows;
    assert SubstitutePass(rows, []).rows == rows;
    assert EnhancedOf(src.enhancements, columns) == {"rue"};
  }

  /**
   A frame with the one column `id_caclr_bat` and a directory for it holding
   `rue.csv`: as written, the run raises on the missing `rue` column; the
   model starts `rue` null and fills it where the id is listed, so the matching
   row gets its street and the other row is the one reported.
   */
  lemma NewTargetAbortsAsWritten()
    ensures CentrifugeAsWritten(["id_caclr_bat"], StreetRows(), StreetSources()).None?
    ensures var o := Centrifuge(["id_caclr_bat"], StreetRows(), StreetSources());
      && |o.rows| == 2
      && Cell(o.rows[0], "rue") == Some("Rue des Jardins")
      && o.missing == {("rue", 1)}
  {
    StreetBooks();
    assert "rue" in AllTargets(StreetSources().enhancements, ["id_caclr_bat"]);
    StreetRun();
    EnhanceStreetExample();
  }
}

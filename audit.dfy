/**
 The report that closes `main` (csventrifuge.py:290-306): every rule,
 enhancement and filter whose count stayed 0 is reported, book by book, in
 the books' order.
 */
module Audit {
  import opened Dict
  import opened Books

  datatype Unused =
    | UnusedRule(column: string, key: string, replacement: string)
    | UnusedEnhancement(source: string, key: string, target: string, replacement: string)
    | UnusedFilter(column: string, value: string)

  /** One report line for each entry of a table whose count is 0, in the table's order. */
  function IdleNotes(entries: Dict<Entry>, note: ((string, Entry)) -> Unused): (notes: seq<Unused>)
    ensures |notes| <= |entries|
  {
    if entries == [] then []
    else
      var last := entries[|entries| - 1];
      IdleNotes(entries[..|entries| - 1], note) + (if last.1.count == 0 then [note(last)] else [])
  }

  /** Entry `i` of the table has count 0 and its report line is `u`. */
  predicate ReportsEntry(entries: Dict<Entry>, note: ((string, Entry)) -> Unused, i: int, u: Unused) {
    0 <= i < |entries| && entries[i].1.count == 0 && u == note(entries[i])
  }

  /** Every report line comes from an entry with count 0 ... */
  lemma {:induction false} IdleNotesSound(entries: Dict<Entry>, note: ((string, Entry)) -> Unused, u: Unused) returns (i: int)
    requires u in IdleNotes(entries, note)
    ensures ReportsEntry(entries, note, i, u)
  {
    var init := entries[..|entries| - 1];
    if u in IdleNotes(init, note) {
      i := IdleNotesSound(init, note, u);
    } else {
      i := |init|;
    }
  }

  /** ... and every entry with count 0 has its line. */
  lemma {:induction false} IdleNotesComplete(entries: Dict<Entry>, note: ((string, Entry)) -> Unused, i: int, u: Unused)
    requires ReportsEntry(entries, note, i, u)
    ensures u in IdleNotes(entries, note)
  {
    var init := entries[..|entries| - 1];
    if i < |init| {
      IdleNotesComplete(init, note, i, u);
    }
  }

  /** `idx` lists, in increasing order, exactly the indices of the entries whose count is 0. */
  predicate IdleIndices(entries: Dict<Entry>, idx: seq<int>) {
    && (forall k :: 0 <= k < |idx| ==> 0 <= idx[k] < |entries| && entries[idx[k]].1.count == 0)
    && (forall k, l :: 0 <= k < l < |idx| ==> idx[k] < idx[l])
    && (forall i :: 0 <= i < |entries| && entries[i].1.count == 0 ==> i in idx)
  }

  /**
   The report of a table is exactly one line per entry with count 0, in the
   table's order: the `k`th line is the note of the `k`th idle entry.
   */
  lemma {:induction false} IdleNotesIndexed(entries: Dict<Entry>, note: ((string, Entry)) -> Unused) returns (idx: seq<int>)
    ensures IdleIndices(entries, idx)
    ensures |IdleNotes(entries, note)| == |idx|
    ensures forall k :: 0 <= k < |idx| ==> IdleNotes(entries, note)[k] == note(entries[idx[k]])
  {
    if entries == [] {
      idx := [];
    } else {
      var init := entries[..|entries| - 1];
      var last := entries[|entries| - 1];
      var before := IdleNotesIndexed(init, note);
      var prev := IdleNotes(init, note);
      var tail := if last.1.count == 0 then [|init|] else [];
      idx := before + tail;
      assert IdleNotes(entries, note) == prev + (if last.1.count == 0 then [note(last)] else []);
      forall k | 0 <= k < |idx|
        ensures 0 <= idx[k] < |entries| && entries[idx[k]].1.count == 0
        ensures IdleNotes(entries, note)[k] == note(entries[idx[k]])
      {
        if k < |before| {
          assert idx[k] == before[k] && init[before[k]] == entries[before[k]];
        }
      }
      forall i | 0 <= i < |entries| && entries[i].1.count == 0 ensures i in idx {
        if i < |init| {
          assert init[i] == entries[i];
          var k :| 0 <= k < |before| && before[k] == i;
          assert idx[k] == i;
        } else {
          assert idx[|before|] == i;
        }
      }
    }
  }

  /** A fully used table reports nothing. */
  lemma {:induction false} IdleNotesOfUsed(entries: Dict<Entry>, note: ((string, Entry)) -> Unused)
    requires forall i :: 0 <= i < |entries| ==> entries[i].1.count > 0
    ensures IdleNotes(entries, note) == []
  {
    if entries != [] {
      IdleNotesOfUsed(entries[..|entries| - 1], note);
    }
  }

  /** A table whose entries are all unused reports every entry, in order. */
  lemma {:induction false} IdleNotesOfFresh(entries: Dict<Entry>, note: ((string, Entry)) -> Unused)
    requires Fresh(entries)
    ensures |IdleNotes(entries, note)| == |entries|
    ensures forall i :: 0 <= i < |entries| ==> IdleNotes(entries, note)[i] == note(entries[i])
  {
    if entries != [] {
      IdleNotesOfFresh(entries[..|entries| - 1], note);
    }
  }

  function RuleNote(col: string): ((string, Entry)) -> Unused {
    (p: (string, Entry)) => UnusedRule(col, p.0, p.1.Text())
  }

  function FilterNote(col: string): ((string, Entry)) -> Unused {
    (p: (string, Entry)) => UnusedFilter(col, p.0)
  }

  function EnhancementNote(source: string, target: string): ((string, Entry)) -> Unused {
    (p: (string, Entry)) => UnusedEnhancement(source, p.0, target, p.1.Text())
  }

  /** The unused rules, column by column (csventrifuge.py:290-295). */
  function RuleAudit(book: Rulebook): seq<Unused> {
    if book == [] then []
    else
      var (col, entries) := book[|book| - 1];
      RuleAudit(book[..|book| - 1]) + IdleNotes(entries, RuleNote(col))
  }

  /** The unused filters, column by column (csventrifuge.py:303-306). */
  function FilterAudit(book: FilterBook): seq<Unused> {
    if book == [] then []
    else
      var (col, entries) := book[|book| - 1];
      FilterAudit(book[..|book| - 1]) + IdleNotes(entries, FilterNote(col))
  }

  /** The unused enhancements of one source column, target by target. */
  function TargetAudit(source: string, targets: Dict<Dict<Entry>>): seq<Unused> {
    if targets == [] then []
    else
      var (target, entries) := targets[|targets| - 1];
      TargetAudit(source, targets[..|targets| - 1]) + IdleNotes(entries, EnhancementNote(source, target))
  }

  /** The unused enhancements, source column by source column (csventrifuge.py:297-301). */
  function EnhanceAudit(book: EnhanceBook): seq<Unused> {
    if book == [] then []
    else
      var (source, targets) := book[|book| - 1];
      EnhanceAudit(book[..|book| - 1]) + TargetAudit(source, targets)
  }

  /** Entry `i` of column `j`'s table is an unused rule reported as `u`. */
  predicate ReportsRule(book: Rulebook, j: int, i: int, u: Unused) {
    0 <= j < |book| && ReportsEntry(book[j].1, RuleNote(book[j].0), i, u)
  }

  predicate ReportsFilter(book: FilterBook, j: int, i: int, u: Unused) {
    0 <= j < |book| && ReportsEntry(book[j].1, FilterNote(book[j].0), i, u)
  }

  predicate ReportsTarget(source: string, targets: Dict<Dict<Entry>>, t: int, i: int, u: Unused) {
    0 <= t < |targets| && ReportsEntry(targets[t].1, EnhancementNote(source, targets[t].0), i, u)
  }

  /** Entry `i` of target table `t` of source column `j` is an unused enhancement reported as `u`. */
  predicate ReportsEnhancement(book: EnhanceBook, j: int, t: int, i: int, u: Unused) {
    0 <= j < |book| && ReportsTarget(book[j].0, book[j].1, t, i, u)
  }

  lemma {:induction false} RuleAuditSound(book: Rulebook, u: Unused) returns (j: int, i: int)
    requires u in RuleAudit(book)
    ensures ReportsRule(book, j, i, u)
  {
    var init := book[..|book| - 1];
    var n := |init|;
    if u in RuleAudit(init) {
      j, i := RuleAuditSound(init, u);
      assert init[j] == book[j];
    } else {
      j := n;
      i := IdleNotesSound(book[n].1, RuleNote(book[n].0), u);
    }
  }

  lemma {:induction false} RuleAuditComplete(book: Rulebook, j: int, i: int, u: Unused)
    requires ReportsRule(book, j, i, u)
    ensures u in RuleAudit(book)
  {
    var init := book[..|book| - 1];
    var n := |init|;
    if j < n {
      assert init[j] == book[j];
      RuleAuditComplete(init, j, i, u);
    } else {
      IdleNotesComplete(book[n].1, RuleNote(book[n].0), i, u);
    }
  }

  /** A rule is reported exactly when it stands in some column's table with count 0. */
  lemma RuleAuditIn(book: Rulebook, u: Unused)
    ensures u in RuleAudit(book) <==> exists j, i :: ReportsRule(book, j, i, u)
  {
    if u in RuleAudit(book) {
      var j, i := RuleAuditSound(book, u);
    }
    if exists j, i :: ReportsRule(book, j, i, u) {
      var j, i :| ReportsRule(book, j, i, u);
      RuleAuditComplete(book, j, i, u);
    }
  }

  lemma {:induction false} FilterAuditSound(book: FilterBook, u: Unused) returns (j: int, i: int)
    requires u in FilterAudit(book)
    ensures ReportsFilter(book, j, i, u)
  {
    var init := book[..|book| - 1];
    var n := |init|;
    if u in FilterAudit(init) {
      j, i := FilterAuditSound(init, u);
      assert init[j] == book[j];
    } else {
      j := n;
      i := IdleNotesSound(book[n].1, FilterNote(book[n].0), u);
    }
  }

  lemma {:induction false} FilterAuditComplete(book: FilterBook, j: int, i: int, u: Unused)
    requires ReportsFilter(book, j, i, u)
    ensures u in FilterAudit(book)
  {
    var init := book[..|book| - 1];
    var n := |init|;
    if j < n {
      assert init[j] == book[j];
      FilterAuditComplete(init, j, i, u);
    } else {
      IdleNotesComplete(book[n].1, FilterNote(book[n].0), i, u);
    }
  }

  /** A filter is reported exactly when it stands in some column's table with count 0. */
  lemma FilterAuditIn(book: FilterBook, u: Unused)
    ensures u in FilterAudit(book) <==> exists j, i :: ReportsFilter(book, j, i, u)
  {
    if u in FilterAudit(book) {
      var j, i := FilterAuditSound(book, u);
    }
    if exists j, i :: ReportsFilter(book, j, i, u) {
      var j, i :| ReportsFilter(book, j, i, u);
      FilterAuditComplete(book, j, i, u);
    }
  }

  lemma {:induction false} TargetAuditSound(source: string, targets: Dict<Dict<Entry>>, u: Unused) returns (t: int, i: int)
    requires u in TargetAudit(source, targets)
    ensures ReportsTarget(source, targets, t, i, u)
  {
    var init := targets[..|targets| - 1];
    var n := |init|;
    if u in TargetAudit(source, init) {
      t, i := TargetAuditSound(source, init, u);
      assert init[t] == targets[t];
    } else {
      t := n;
      i := IdleNotesSound(targets[n].1, EnhancementNote(source, targets[n].0), u);
    }
  }

  lemma {:induction false} TargetAuditComplete(source: string, targets: Dict<Dict<Entry>>, t: int, i: int, u: Unused)
    requires ReportsTarget(source, targets, t, i, u)
    ensures u in TargetAudit(source, targets)
  {
    var init := targets[..|targets| - 1];
    var n := |init|;
    if t < n {
      assert init[t] == targets[t];
      TargetAuditComplete(source, init, t, i, u);
    } else {
      IdleNotesComplete(targets[n].1, EnhancementNote(source, targets[n].0), i, u);
    }
  }

  lemma {:induction false} EnhanceAuditSound(book: EnhanceBook, u: Unused) returns (j: int, t: int, i: int)
    requires u in EnhanceAudit(book)
    ensures ReportsEnhancement(book, j, t, i, u)
  {
    var init := book[..|book| - 1];
    var n := |init|;
    if u in EnhanceAudit(init) {
      j, t, i := EnhanceAuditSound(init, u);
      assert init[j] == book[j];
    } else {
      j := n;
      t, i := TargetAuditSound(book[n].0, book[n].1, u);
    }
  }

  lemma {:induction false} EnhanceAuditComplete(book: EnhanceBook, j: int, t: int, i: int, u: Unused)
    requires ReportsEnhancement(book, j, t, i, u)
    ensures u in EnhanceAudit(book)
  {
    var init := book[..|book| - 1];
    var n := |init|;
    if j < n {
      assert init[j] == book[j];
      EnhanceAuditComplete(init, j, t, i, u);
    } else {
      TargetAuditComplete(book[n].0, book[n].1, t, i, u);
    }
  }

  /** An enhancement is reported exactly when it stands in some (source, target) table with count 0. */
  lemma EnhanceAuditIn(book: EnhanceBook, u: Unused)
    ensures u in EnhanceAudit(book) <==> exists j, t, i :: ReportsEnhancement(book, j, t, i, u)
  {
    if u in EnhanceAudit(book) {
      var j, t, i := EnhanceAuditSound(book, u);
    }
    if exists j, t, i :: ReportsEnhancement(book, j, t, i, u) {
      var j, t, i :| ReportsEnhancement(book, j, t, i, u);
      EnhanceAuditComplete(book, j, t, i, u);
    }
  }
}

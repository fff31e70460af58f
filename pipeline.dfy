/**
 The three-stage pass of csventrifuge's `main` (csventrifuge.py:246-282):
 filter, substitute, enhance, then the check for enhanced columns left null.

 The data frame is a sequence of rows; a row maps column names to optional
 strings. `Cell` reads a column that a row lacks as null.
 */
module Pipeline {
  import opened Wrappers
  import opened Dict
  import opened Books

  type Row = map<string, Option<string>>
  type Table = seq<Row>

  function Cell(row: Row, col: string): Option<string> {
    if col in row then row[col] else None
  }

  /** `pl.col(col).is_in(keys)` for one row; a null value is never a member. */
  predicate Matches(row: Row, col: string, keys: seq<string>) {
    Cell(row, col).Some? && Cell(row, col).value in keys
  }

  // ---------------------------------------------------------------------
  // Counting matches (`value_counts` and the loop that stores the counts)

  /** How many rows hold `v` in `col`. */
  function Occ(rows: Table, col: string, v: string): nat {
    if rows == [] then 0
    else (if Cell(rows[0], col) == Some(v) then 1 else 0) + Occ(rows[1..], col, v)
  }

  /** How many rows match `keys` in `col`. */
  function CountIn(rows: Table, col: string, keys: seq<string>): (n: nat)
    ensures n <= |rows|
  {
    if rows == [] then 0
    else (if Matches(rows[0], col, keys) then 1 else 0) + CountIn(rows[1..], col, keys)
  }

  /** The sum of the value counts of the table's keys. */
  function SumOcc(rows: Table, col: string, entries: Dict<Entry>): nat {
    if entries == [] then 0
    else SumOcc(rows, col, entries[..|entries| - 1]) + Occ(rows, col, entries[|entries| - 1].0)
  }

  /** `entry.count = n` is done only for values that occur, i.e. when `n > 0`. */
  function Assign(e: Entry, n: nat): Entry {
    if n > 0 then e.(count := n) else e
  }

  /** Each entry of the table with the count of its key among `rows` stored. */
  function Recount(entries: Dict<Entry>, rows: Table, col: string): (r: Dict<Entry>)
    ensures |r| == |entries|
  {
    if entries == [] then []
    else
      var last := entries[|entries| - 1];
      Recount(entries[..|entries| - 1], rows, col) + [(last.0, Assign(last.1, Occ(rows, col, last.0)))]
  }

  lemma {:induction false} RecountAt(entries: Dict<Entry>, rows: Table, col: string)
    ensures forall i :: 0 <= i < |entries| ==>
      Recount(entries, rows, col)[i] == (entries[i].0, Assign(entries[i].1, Occ(rows, col, entries[i].0)))
  {
    if entries != [] {
      RecountAt(entries[..|entries| - 1], rows, col);
    }
  }

  /** The sum of all counts of a table, and of a book. */
  function TotalCount(entries: Dict<Entry>): nat {
    if entries == [] then 0 else TotalCount(entries[..|entries| - 1]) + entries[|entries| - 1].1.count
  }

  function BookTotal(book: Dict<Dict<Entry>>): nat {
    if book == [] then 0 else BookTotal(book[..|book| - 1]) + TotalCount(book[|book| - 1].1)
  }

  predicate FreshBook(book: Dict<Dict<Entry>>) {
    forall i :: 0 <= i < |book| ==> Fresh(book[i].1)
  }

  predicate UniqueTables(book: Dict<Dict<Entry>>) {
    forall i :: 0 <= i < |book| ==> UniqueKeys(book[i].1)
  }

  lemma {:induction false} CountInSnoc(rows: Table, col: string, keys: seq<string>, k: string)
    requires k !in keys
    ensures CountIn(rows, col, keys + [k]) == CountIn(rows, col, keys) + Occ(rows, col, k)
  {
    if rows != [] {
      CountInSnoc(rows[1..], col, keys, k);
    }
  }

  /** With unique keys, the value counts add up to the number of matching rows. */
  lemma {:induction false} SumOccIsCountIn(rows: Table, col: string, entries: Dict<Entry>)
    requires UniqueKeys(entries)
    ensures SumOcc(rows, col, entries) == CountIn(rows, col, Keys(entries))
  {
    if entries == [] {
      CountInNone(rows, col);
    } else {
      var init := entries[..|entries| - 1];
      var k := entries[|entries| - 1].0;
      SumOccIsCountIn(rows, col, init);
      assert Keys(entries) == Keys(init) + [k];
      assert k !in Keys(init) by {
        forall i | 0 <= i < |init| ensures Keys(init)[i] != k {
          assert init[i] == entries[i];
        }
      }
      CountInSnoc(rows, col, Keys(init), k);
    }
  }

  lemma {:induction false} CountInNone(rows: Table, col: string)
    ensures CountIn(rows, col, []) == 0
  {
    if rows != [] {
      CountInNone(rows[1..], col);
    }
  }

  /** Counting fresh entries stores each key's number of occurrences; their sum is the number of matching rows. */
  lemma {:induction false} RecountFresh(entries: Dict<Entry>, rows: Table, col: string)
    requires Fresh(entries)
    ensures forall i :: 0 <= i < |entries| ==>
      Recount(entries, rows, col)[i] == (entries[i].0, entries[i].1.(count := Occ(rows, col, entries[i].0)))
    ensures TotalCount(Recount(entries, rows, col)) == SumOcc(rows, col, entries)
  {
    if entries != [] {
      var init := entries[..|entries| - 1];
      RecountFresh(init, rows, col);
      RecountAt(entries, rows, col);
      assert Recount(entries, rows, col)[..|init|] == Recount(init, rows, col);
    }
  }

  /** Helper: assigning to one element of a sequence, seen through its split at that element. */
  lemma UpdateMiddle<T>(a: seq<T>, x: T, b: seq<T>, y: T)
    ensures (a + [x] + b)[|a| := y] == a + [y] + b
  {
  }

  /**
   The loop over `value_counts` (csventrifuge.py:251-253, 262-264, 271-272):
   stores the count of every key that occurs and sums them.
   */
  method CountMatches(entries: Dict<Entry>, rows: Table, col: string) returns (counted: Dict<Entry>, hits: nat)
    ensures counted == Recount(entries, rows, col)
    ensures hits == SumOcc(rows, col, entries)
  {
    counted, hits := entries, 0;
    for j := 0 to |entries|
      invariant counted == Recount(entries[..j], rows, col) + entries[j..]
      invariant hits == SumOcc(rows, col, entries[..j])
    {
      var (k, e) := entries[j];
      var n := Occ(rows, col, k);
      ghost var done := Recount(entries[..j], rows, col);
      assert Recount(entries[..j + 1], rows, col) == done + [(k, Assign(e, n))]
        && SumOcc(rows, col, entries[..j + 1]) == SumOcc(rows, col, entries[..j]) + n by {
        assert entries[..j + 1][..j] == entries[..j];
      }
      assert counted == done + [(k, e)] + entries[j + 1..] by {
        assert entries[j..] == [entries[j]] + entries[j + 1..];
      }
      if n > 0 {
        UpdateMiddle(done, (k, e), entries[j + 1..], (k, e.(count := n)));
        counted := counted[j := (k, e.(count := n))];
        hits := hits + n;
      }
    }
    assert entries[..|entries|] == entries;
  }

  // ---------------------------------------------------------------------
  // Filter stage (csventrifuge.py:246-254)

  /** `df.filter(~pl.col(col).is_in(keys))`. */
  function Drop(rows: Table, col: string, keys: seq<string>): (kept: Table)
    ensures |kept| == |rows| - CountIn(rows, col, keys)
  {
    if rows == [] then []
    else (if Matches(rows[0], col, keys) then [] else [rows[0]]) + Drop(rows[1..], col, keys)
  }

  datatype Filtered = Filtered(rows: Table, book: FilterBook, filtered: nat)

  /** The filter loop over the first columns of the book. */
  function FilterPass(rows: Table, book: FilterBook): (r: Filtered)
    ensures |r.book| == |book|
    ensures forall i :: 0 <= i < |book| ==> r.book[i].0 == book[i].0
  {
    if book == [] then Filtered(rows, [], 0)
    else
      var r := FilterPass(rows, book[..|book| - 1]);
      var (col, entries) := book[|book| - 1];
      Filtered(Drop(r.rows, col, Keys(entries)),
               r.book + [(col, Recount(entries, r.rows, col))],
               r.filtered + SumOcc(r.rows, col, entries))
  }

  /** The filter stage of `main`. */
  method FilterStage(rows: Table, book: FilterBook) returns (kept: Table, counted: FilterBook, filtered: nat)
    ensures Filtered(kept, counted, filtered) == FilterPass(rows, book)
  {
    kept, counted, filtered := rows, [], 0;
    for i := 0 to |book|
      invariant Filtered(kept, counted, filtered) == FilterPass(rows, book[..i])
    {
      var (col, entries) := book[i];
      assert book[..i + 1][..i] == book[..i];
      var recounted, hits := CountMatches(entries, kept, col);
      counted := counted + [(col, recounted)];
      filtered := filtered + hits;
      kept := Drop(kept, col, Keys(entries));
    }
    assert book[..|book|] == book;
  }

  /** A row survives the filters when no filter column holds one of its filtered values. */
  predicate Survives(row: Row, book: FilterBook) {
    forall i :: 0 <= i < |book| ==> !Matches(row, book[i].0, Keys(book[i].1))
  }

  /** The rows that survive, in their original order. */
  function Survivors(rows: Table, book: FilterBook): (kept: Table)
    ensures forall r :: r in kept <==> r in rows && Survives(r, book)
  {
    if rows == [] then []
    else (if Survives(rows[0], book) then [rows[0]] else []) + Survivors(rows[1..], book)
  }

  lemma {:induction false} SurvivorsSnoc(rows: Table, book: FilterBook, col: string, entries: Dict<Entry>)
    ensures Survivors(rows, book + [(col, entries)]) == Drop(Survivors(rows, book), col, Keys(entries))
  {
    if rows != [] {
      SurvivorsSnoc(rows[1..], book, col, entries);
      var b := book + [(col, entries)];
      assert Survives(rows[0], b) <==> Survives(rows[0], book) && !Matches(rows[0], col, Keys(entries)) by {
        assert b[|book|] == (col, entries);
        assert forall i :: 0 <= i < |book| ==> b[i] == book[i];
      }
      var rest := Survivors(rows[1..], book);
      if Survives(rows[0], book) {
        assert Survivors(rows, book) == [rows[0]] + rest;
        assert ([rows[0]] + rest)[1..] == rest;
      } else {
        assert Survivors(rows, book) == rest;
      }
    }
  }

  /**
   After the filter stage the rows left are exactly, in order, the rows that no
   filter column matches (csventrifuge.py:248-254): filtering column by column
   drops a row at its first matching column and keeps the relative order of
   the others.
   */
  lemma {:induction false} FilterKeepsSurvivors(rows: Table, book: FilterBook)
    ensures FilterPass(rows, book).rows == Survivors(rows, book)
  {
    if book == [] {
      SurvivorsAll(rows);
    } else {
      var init := book[..|book| - 1];
      FilterKeepsSurvivors(rows, init);
      SurvivorsSnoc(rows, init, book[|book| - 1].0, book[|book| - 1].1);
      assert init + [book[|book| - 1]] == book;
    }
  }

  lemma {:induction false} SurvivorsAll(rows: Table)
    ensures Survivors(rows, []) == rows
  {
    if rows != [] {
      SurvivorsAll(rows[1..]);
    }
  }

  /** No surviving row holds, in any filter column, a value that is a key of that column's table. */
  lemma FilterRemovesMatches(rows: Table, book: FilterBook)
    ensures forall r, i :: r in FilterPass(rows, book).rows && 0 <= i < |book| ==>
      !Matches(r, book[i].0, Keys(book[i].1))
  {
    FilterKeepsSurvivors(rows, book);
  }

  /**
   The counts the filter stage stores: each entry of column `i` counts the rows
   still in the working set when column `i` is processed, that is, rows that an
   earlier filter column dropped are not counted again.
   */
  lemma {:induction false} FilterCounts(rows: Table, book: FilterBook, i: nat)
    requires i < |book|
    ensures FilterPass(rows, book).book[i] == (book[i].0, Recount(book[i].1, Survivors(rows, book[..i]), book[i].0))
  {
    var init := book[..|book| - 1];
    if i < |book| - 1 {
      FilterCounts(rows, init, i);
      assert init[..i] == book[..i];
    } else {
      FilterKeepsSurvivors(rows, init);
    }
  }

  /** `filtered` is the number of dropped rows and, for freshly loaded tables, the sum of all counts. */
  lemma {:induction false} FilterTotals(rows: Table, book: FilterBook)
    requires UniqueTables(book)
    ensures FilterPass(rows, book).filtered == |rows| - |FilterPass(rows, book).rows|
    ensures FreshBook(book) ==> FilterPass(rows, book).filtered == BookTotal(FilterPass(rows, book).book)
  {
    if book != [] {
      var init := book[..|book| - 1];
      FilterTotals(rows, init);
      var r := FilterPass(rows, init);
      var (col, entries) := book[|book| - 1];
      SumOccIsCountIn(r.rows, col, entries);
      if FreshBook(book) {
        assert FreshBook(init);
        RecountFresh(entries, r.rows, col);
        var b := FilterPass(rows, book).book;
        assert b[..|b| - 1] == r.book;
      }
    }
  }

  // ---------------------------------------------------------------------
  // Substitute stage (csventrifuge.py:256-265)

  /** One lookup in a table: a key gives its entry's text, anything else (null included) stays. */
  function Lookup(entries: Dict<Entry>, v: Option<string>): (w: Option<string>)
    ensures v.None? ==> w == v
    ensures v.Some? && !HasKey(entries, v.value) ==> w == v
    ensures v.Some? && HasKey(entries, v.value) ==>
      exists i :: 0 <= i < |entries| && entries[i].0 == v.value && w == Some(entries[i].1.Text())
  {
    if v.Some? then
      match Get(entries, v.value)
      case Some(e) => Some(e.Text())
      case None => v
    else v
  }

  /** `pl.col(col).replace(replace_map)` on one row. */
  function Replace(row: Row, col: string, entries: Dict<Entry>): Row {
    if Matches(row, col, Keys(entries)) then row[col := Lookup(entries, Cell(row, col))] else row
  }

  /**
   `with_columns(pl.col(col).replace(map))`: every row keeps its columns, the
   cell of `col` is looked up in the table, and every other cell is unchanged.
   */
  function ReplaceColumn(rows: Table, col: string, entries: Dict<Entry>): (out: Table)
    ensures |out| == |rows|
    ensures forall i :: 0 <= i < |rows| ==> out[i] == Replace(rows[i], col, entries)
    ensures forall i :: 0 <= i < |rows| ==> out[i].Keys == rows[i].Keys
    ensures forall i, c :: 0 <= i < |rows| ==>
      Cell(out[i], c) == if c == col then Lookup(entries, Cell(rows[i], col)) else Cell(rows[i], c)
  {
    seq(|rows|, i requires 0 <= i < |rows| => Replace(rows[i], col, entries))
  }

  /** Replacing touches only its own column and looks the old value up once. */
  lemma ReplaceCell(row: Row, col: string, entries: Dict<Entry>, c: string)
    ensures Cell(Replace(row, col, entries), c) == if c == col then Lookup(entries, Cell(row, col)) else Cell(row, c)
    ensures Replace(row, col, entries).Keys == row.Keys
  {
    InKeys(entries, if Cell(row, col).Some? then Cell(row, col).value else "");
  }

  datatype Substituted = Substituted(rows: Table, book: Rulebook, substitutions: nat)

  /** The substitution loop over the first columns of the rulebook; empty tables are skipped. */
  function SubstitutePass(rows: Table, book: Rulebook): (r: Substituted)
    ensures |r.rows| == |rows|
  {
    if book == [] then Substituted(rows, [], 0)
    else
      var r := SubstitutePass(rows, book[..|book| - 1]);
      var (col, entries) := book[|book| - 1];
      if entries == [] then Substituted(r.rows, r.book + [(col, entries)], r.substitutions)
      else Substituted(ReplaceColumn(r.rows, col, entries),
                       r.book + [(col, Recount(entries, r.rows, col))],
                       r.substitutions + SumOcc(r.rows, col, entries))
  }

  /** The substitute stage of `main`. */
  method SubstituteStage(rows: Table, book: Rulebook) returns (out: Table, counted: Rulebook, substitutions: nat)
    ensures Substituted(out, counted, substitutions) == SubstitutePass(rows, book)
  {
    out, counted, substitutions := rows, [], 0;
    for i := 0 to |book|
      invariant Substituted(out, counted, substitutions) == SubstitutePass(rows, book[..i])
    {
      var (col, entries) := book[i];
      assert book[..i + 1][..i] == book[..i];
      if entries == [] {
        counted := counted + [(col, entries)];
        continue;
      }
      var recounted, hits := CountMatches(entries, out, col);
      counted := counted + [(col, recounted)];
      substitutions := substitutions + hits;
      out := ReplaceColumn(out, col, entries);
    }
    assert book[..|book|] == book;
  }

  /** What substitution makes of one cell: one lookup in its column's table, if the column has one. */
  function Substituted1(row: Row, c: string, book: Rulebook): Option<string> {
    match Get(book, c)
    case Some(entries) => Lookup(entries, Cell(row, c))
    case None => Cell(row, c)
  }

  /** Helper: in a dict with distinct keys, the last key is not among the earlier ones. */
  lemma LastKeyIsNew<V>(d: Dict<V>)
    requires UniqueKeys(d) && d != []
    ensures !HasKey(d[..|d| - 1], d[|d| - 1].0)
    ensures UniqueKeys(d[..|d| - 1])
    ensures d == d[..|d| - 1] + [d[|d| - 1]]
  {
    assert forall i :: 0 <= i < |d| - 1 ==> d[..|d| - 1][i] == d[i];
  }

  /**
   Every cell after the substitute stage is the result of a single lookup of
   its original value in its own column's rules (csventrifuge.py:257-265):
   a replacement is never looked up again, a null is never looked up, a
   column without rules is untouched, and no row gains or loses a column.
   */
  lemma {:induction false} SubstituteCells(rows: Table, book: Rulebook)
    requires UniqueKeys(book)
    ensures forall i, c :: 0 <= i < |rows| ==>
      Cell(SubstitutePass(rows, book).rows[i], c) == Substituted1(rows[i], c, book)
    ensures forall i :: 0 <= i < |rows| ==> SubstitutePass(rows, book).rows[i].Keys == rows[i].Keys
  {
    if book != [] {
      var init := book[..|book| - 1];
      var (col, entries) := book[|book| - 1];
      LastKeyIsNew(book);
      SubstituteCells(rows, init);
      var r := SubstitutePass(rows, init);
      var out := SubstitutePass(rows, book).rows;
      forall i, c | 0 <= i < |rows|
        ensures Cell(out[i], c) == Substituted1(rows[i], c, book)
        ensures out[i].Keys == rows[i].Keys
      {
        GetSnoc(init, col, entries, c);
        ReplaceCell(r.rows[i], col, entries, c);
        assert Cell(r.rows[i], c) == Substituted1(rows[i], c, init);
      }
    }
  }

  /** Nulls and values without a rule are left as they are. */
  lemma SubstituteLeavesUnmatched(rows: Table, book: Rulebook, i: nat, c: string)
    requires UniqueKeys(book) && i < |rows|
    requires Get(book, c).None? || Cell(rows[i], c).None? || !HasKey(Get(book, c).value, Cell(rows[i], c).value)
    ensures Cell(SubstitutePass(rows, book).rows[i], c) == Cell(rows[i], c)
  {
    SubstituteCells(rows, book);
  }

  /** Rules are applied simultaneously: with A -> B and B -> C in one table, A becomes B, not C. */
  lemma SubstituteNoChaining()
    ensures var book := [("c", [("A", RuleEntry("B", 0)), ("B", RuleEntry("C", 0))])];
      SubstitutePass([map["c" := Some("A")]], book).rows == [map["c" := Some("B")]]
  {
    var entries := [("A", RuleEntry("B", 0)), ("B", RuleEntry("C", 0))];
    var book := [("c", entries)];
    var row := map["c" := Some("A")];
    SubstituteCells([row], book);
    var out := SubstitutePass([row], book).rows[0];
    assert Get(book, "c") == Some(entries);
    assert Get(entries, "A") == Some(RuleEntry("B", 0));
    assert Cell(out, "c") == Some("B");
    assert out == map["c" := Some("B")];
  }

  lemma {:induction false} OccSameColumn(a: Table, b: Table, col: string, v: string)
    requires |a| == |b| && forall i :: 0 <= i < |a| ==> Cell(a[i], col) == Cell(b[i], col)
    ensures Occ(a, col, v) == Occ(b, col, v)
  {
    if a != [] {
      OccSameColumn(a[1..], b[1..], col, v);
    }
  }

  lemma {:induction false} CountsSameColumn(entries: Dict<Entry>, a: Table, b: Table, col: string)
    requires |a| == |b| && forall i :: 0 <= i < |a| ==> Cell(a[i], col) == Cell(b[i], col)
    ensures Recount(entries, a, col) == Recount(entries, b, col)
    ensures SumOcc(a, col, entries) == SumOcc(b, col, entries)
  {
    if entries != [] {
      CountsSameColumn(entries[..|entries| - 1], a, b, col);
      OccSameColumn(a, b, col, entries[|entries| - 1].0);
    }
  }

  /**
   The counts of the substitute stage are taken on the data as it was before
   any substitution, because each column is substituted only once.
   */
  lemma {:induction false} SubstituteCounts(rows: Table, book: Rulebook)
    requires UniqueKeys(book)
    ensures |SubstitutePass(rows, book).book| == |book|
    ensures forall j :: 0 <= j < |book| ==>
      SubstitutePass(rows, book).book[j] == (book[j].0, Recount(book[j].1, rows, book[j].0))
    ensures SubstitutePass(rows, book).substitutions == SumBook(rows, book)
  {
    if book != [] {
      var init := book[..|book| - 1];
      var (col, entries) := book[|book| - 1];
      LastKeyIsNew(book);
      SubstituteCounts(rows, init);
      SubstituteColumnKept(rows, init, col);
      var r := SubstitutePass(rows, init);
      CountsSameColumn(entries, r.rows, rows, col);
      var b := SubstitutePass(rows, book).book;
      assert b[..|b| - 1] == r.book;
    }
  }

  /** A column the rulebook does not name keeps its cells. */
  lemma SubstituteColumnKept(rows: Table, book: Rulebook, col: string)
    requires UniqueKeys(book) && !HasKey(book, col)
    ensures forall i :: 0 <= i < |rows| ==> Cell(SubstitutePass(rows, book).rows[i], col) == Cell(rows[i], col)
  {
    SubstituteCells(rows, book);
    forall i | 0 <= i < |rows| ensures Cell(SubstitutePass(rows, book).rows[i], col) == Cell(rows[i], col) {
      assert Cell(SubstitutePass(rows, book).rows[i], col) == Substituted1(rows[i], col, book);
    }
  }

  /** The sum of the value counts of every table, taken on the same rows. */
  function SumBook(rows: Table, book: Rulebook): nat {
    if book == [] then 0
    else SumBook(rows, book[..|book| - 1]) + SumOcc(rows, book[|book| - 1].0, book[|book| - 1].1)
  }

  /** The number of cells whose value has a rule in their column. */
  function RuleHits(rows: Table, book: Rulebook): nat {
    if book == [] then 0
    else RuleHits(rows, book[..|book| - 1]) + CountIn(rows, book[|book| - 1].0, Keys(book[|book| - 1].1))
  }

  /**
   `substitutions` is the number of cells the stage replaces, and for a
   freshly loaded rulebook also the sum of all rule counts it stores.
   */
  lemma SubstituteTotals(rows: Table, book: Rulebook)
    requires UniqueKeys(book) && UniqueTables(book)
    ensures SubstitutePass(rows, book).substitutions == RuleHits(rows, book)
    ensures FreshBook(book) ==> SubstitutePass(rows, book).substitutions == BookTotal(SubstitutePass(rows, book).book)
  {
    SubstituteCounts(rows, book);
    SumBookHits(rows, book);
    if FreshBook(book) {
      SumBookTotal(rows, book, SubstitutePass(rows, book).book);
    }
  }

  lemma {:induction false} SumBookHits(rows: Table, book: Rulebook)
    requires UniqueTables(book)
    ensures SumBook(rows, book) == RuleHits(rows, book)
  {
    if book != [] {
      SumBookHits(rows, book[..|book| - 1]);
      SumOccIsCountIn(rows, book[|book| - 1].0, book[|book| - 1].1);
    }
  }

  lemma {:induction false} SumBookTotal(rows: Table, book: Rulebook, counted: Rulebook)
    requires FreshBook(book) && |counted| == |book|
    requires forall j :: 0 <= j < |book| ==> counted[j] == (book[j].0, Recount(book[j].1, rows, book[j].0))
    ensures SumBook(rows, book) == BookTotal(counted)
  {
    if book != [] {
      var n := |book| - 1;
      SumBookTotal(rows, book[..n], counted[..n]);
      RecountFresh(book[n].1, rows, book[n].0);
    }
  }

  /** No replacement of a table is itself a key of that table. */
  predicate Unchained(book: Rulebook) {
    forall j, i :: 0 <= j < |book| && 0 <= i < |book[j].1| ==> !HasKey(book[j].1, book[j].1[i].1.Text())
  }

  lemma LookupTwice(entries: Dict<Entry>, v: Option<string>)
    requires forall i :: 0 <= i < |entries| ==> !HasKey(entries, entries[i].1.Text())
    ensures Lookup(entries, Lookup(entries, v)) == Lookup(entries, v)
  {
  }

  /** When no rule produces a value another rule of its column rewrites, substituting twice is substituting once. */
  lemma SubstituteIdempotent(rows: Table, book: Rulebook)
    requires UniqueKeys(book) && Unchained(book)
    ensures var once := SubstitutePass(rows, book).rows; SubstitutePass(once, book).rows == once
  {
    var once := SubstitutePass(rows, book).rows;
    var twice := SubstitutePass(once, book).rows;
    SubstituteCells(rows, book);
    SubstituteCells(once, book);
    forall i | 0 <= i < |rows| ensures twice[i] == once[i] {
      forall c | c in once[i] ensures twice[i][c] == once[i][c] {
        assert Cell(twice[i], c) == Substituted1(once[i], c, book);
        match Get(book, c) {
          case None =>
          case Some(entries) =>
            var j :| 0 <= j < |book| && book[j] == (c, entries);
            LookupTwice(entries, Cell(rows[i], c));
        }
      }
    }
  }

  // ---------------------------------------------------------------------
  // Enhance stage (csventrifuge.py:267-278)

  /**
   `pl.when(pl.col(key).is_in(keys)).then(pl.col(key).replace(map)).otherwise(pl.col(target))`
   written to `target`, on one row.
   */
  function Enhance(row: Row, key: string, target: string, entries: Dict<Entry>): Row {
    if Matches(row, key, Keys(entries)) then row[target := Lookup(entries, Cell(row, key))] else row
  }

  /**
   The `with_columns` of one (source, target) pair: a row whose source value
   is a key of the table gets the replacement in `target`; every other cell,
   and the target of every other row, is unchanged.
   */
  function EnhanceColumn(rows: Table, key: string, target: string, entries: Dict<Entry>): (out: Table)
    ensures |out| == |rows|
    ensures forall i :: 0 <= i < |rows| ==> out[i] == Enhance(rows[i], key, target, entries)
    ensures forall i, c :: 0 <= i < |rows| ==>
      Cell(out[i], c) ==
        if c == target && Matches(rows[i], key, Keys(entries)) then Lookup(entries, Cell(rows[i], key)) else Cell(rows[i], c)
  {
    seq(|rows|, i requires 0 <= i < |rows| => Enhance(rows[i], key, target, entries))
  }

  /** Enhancing writes only the target, and a match writes a value there. */
  lemma EnhanceCell(row: Row, key: string, target: string, entries: Dict<Entry>, c: string)
    ensures Cell(Enhance(row, key, target, entries), c) ==
      if c == target && Matches(row, key, Keys(entries)) then Lookup(entries, Cell(row, key)) else Cell(row, c)
    ensures Matches(row, key, Keys(entries)) ==> Lookup(entries, Cell(row, key)).Some?
  {
    InKeys(entries, if Cell(row, key).Some? then Cell(row, key).value else "");
  }

  /** The rows after the targets of one source column, and those targets' tables with their counts. */
  datatype Derived = Derived(rows: Table, targets: Dict<Dict<Entry>>)

  /** The inner loop of the stage, over the first targets of one source column. */
  function EnhanceTargets(rows: Table, key: string, targets: Dict<Dict<Entry>>): (r: Derived)
    ensures |r.rows| == |rows|
    ensures |r.targets| == |targets|
  {
    if targets == [] then Derived(rows, [])
    else
      var r := EnhanceTargets(rows, key, targets[..|targets| - 1]);
      var (target, entries) := targets[|targets| - 1];
      Derived(EnhanceColumn(r.rows, key, target, entries), r.targets + [(target, Recount(entries, r.rows, key))])
  }

  datatype Enhanced = Enhanced(rows: Table, book: EnhanceBook)

  /** The outer loop of the stage, over the first source columns of the book. */
  function EnhancePass(rows: Table, book: EnhanceBook): (r: Enhanced)
    ensures |r.rows| == |rows|
    ensures |r.book| == |book|
  {
    if book == [] then Enhanced(rows, [])
    else
      var r := EnhancePass(rows, book[..|book| - 1]);
      var (key, targets) := book[|book| - 1];
      var d := EnhanceTargets(r.rows, key, targets);
      Enhanced(d.rows, r.book + [(key, d.targets)])
  }

  /** The targets of one source column, in order. */
  method EnhanceSource(rows: Table, key: string, targets: Dict<Dict<Entry>>) returns (out: Table, counted: Dict<Dict<Entry>>)
    ensures Derived(out, counted) == EnhanceTargets(rows, key, targets)
  {
    out, counted := rows, [];
    for i := 0 to |targets|
      invariant Derived(out, counted) == EnhanceTargets(rows, key, targets[..i])
    {
      var (target, entries) := targets[i];
      assert targets[..i + 1][..i] == targets[..i];
      var recounted, _ := CountMatches(entries, out, key);
      counted := counted + [(target, recounted)];
      out := EnhanceColumn(out, key, target, entries);
    }
    assert targets[..|targets|] == targets;
  }

  /** The enhance stage of `main`. */
  method EnhanceStage(rows: Table, book: EnhanceBook) returns (out: Table, counted: EnhanceBook)
    ensures Enhanced(out, counted) == EnhancePass(rows, book)
  {
    out, counted := rows, [];
    for i := 0 to |book|
      invariant Enhanced(out, counted) == EnhancePass(rows, book[..i])
    {
      var (key, targets) := book[i];
      assert book[..i + 1][..i] == book[..i];
      var derived;
      out, derived := EnhanceSource(out, key, targets);
      counted := counted + [(key, derived)];
    }
    assert book[..|book|] == book;
  }

  /** Some source column of the book has a table for target `c`. */
  predicate IsTarget(book: EnhanceBook, c: string) {
    exists j :: 0 <= j < |book| && HasKey(book[j].1, c)
  }

  /** Helper: how the last of a prefix of pairs relates to the whole, for both levels of the book. */
  lemma HasKeyInit<V>(d: Dict<V>, c: string)
    requires d != []
    ensures HasKey(d, c) <==> HasKey(d[..|d| - 1], c) || d[|d| - 1].0 == c
  {
    if HasKey(d, c) {
      var i :| 0 <= i < |d| && d[i].0 == c;
      if i < |d| - 1 {
        assert d[..|d| - 1][i].0 == c;
      }
    }
    if HasKey(d[..|d| - 1], c) {
      var i :| 0 <= i < |d| - 1 && d[..|d| - 1][i].0 == c;
      assert d[i].0 == c;
    }
  }

  lemma IsTargetInit(book: EnhanceBook, c: string)
    requires book != []
    ensures IsTarget(book, c) <==> IsTarget(book[..|book| - 1], c) || HasKey(book[|book| - 1].1, c)
  {
    var init := book[..|book| - 1];
    if IsTarget(book, c) {
      var j :| 0 <= j < |book| && HasKey(book[j].1, c);
      if j < |init| {
        assert init[j] == book[j];
      }
    }
    if IsTarget(init, c) {
      var j :| 0 <= j < |init| && HasKey(init[j].1, c);
      assert init[j] == book[j];
    }
  }

  /**
   The targets of one source column change only their own cells, and never
   turn a value back into null.
   */
  lemma {:induction false} EnhanceTargetsFrame(rows: Table, key: string, targets: Dict<Dict<Entry>>)
    ensures forall i, c :: 0 <= i < |rows| && !HasKey(targets, c) ==>
      Cell(EnhanceTargets(rows, key, targets).rows[i], c) == Cell(rows[i], c)
    ensures forall i, c :: 0 <= i < |rows| && Cell(rows[i], c).Some? ==>
      Cell(EnhanceTargets(rows, key, targets).rows[i], c).Some?
  {
    if targets != [] {
      var init := targets[..|targets| - 1];
      var (target, entries) := targets[|targets| - 1];
      EnhanceTargetsFrame(rows, key, init);
      var r := EnhanceTargets(rows, key, init);
      forall i, c | 0 <= i < |rows|
        ensures !HasKey(targets, c) ==> Cell(EnhanceTargets(rows, key, targets).rows[i], c) == Cell(rows[i], c)
        ensures Cell(rows[i], c).Some? ==> Cell(EnhanceTargets(rows, key, targets).rows[i], c).Some?
      {
        HasKeyInit(targets, c);
        EnhanceCell(r.rows[i], key, target, entries, c);
      }
    }
  }

  /**
   The enhance stage changes only target columns (csventrifuge.py:273-278):
   every other cell keeps its value, and a cell that held a value still holds
   one, since a row that no entry matches keeps its target's old value.
   */
  lemma {:induction false} EnhanceFrame(rows: Table, book: EnhanceBook)
    ensures forall i, c :: 0 <= i < |rows| && !IsTarget(book, c) ==>
      Cell(EnhancePass(rows, book).rows[i], c) == Cell(rows[i], c)
    ensures forall i, c :: 0 <= i < |rows| && Cell(rows[i], c).Some? ==>
      Cell(EnhancePass(rows, book).rows[i], c).Some?
  {
    if book != [] {
      var init := book[..|book| - 1];
      var (key, targets) := book[|book| - 1];
      EnhanceFrame(rows, init);
      var r := EnhancePass(rows, init);
      EnhanceTargetsFrame(r.rows, key, targets);
      forall i, c | 0 <= i < |rows|
        ensures !IsTarget(book, c) ==> Cell(EnhancePass(rows, book).rows[i], c) == Cell(rows[i], c)
      {
        IsTargetInit(book, c);
      }
    }
  }

  /** No target column is also a source column of the book. */
  predicate Independent(book: EnhanceBook) {
    forall j, t :: 0 <= j < |book| && 0 <= t < |book[j].1| ==> !HasKey(book, book[j].1[t].0)
  }

  /**
   The value `c` gets from one source column's targets, read off the row as
   given: the last target table for `c` that matches the source value, or
   `fallback` when none does.
   */
  function Derive(row: Row, key: string, targets: Dict<Dict<Entry>>, c: string, fallback: Option<string>): Option<string> {
    if targets == [] then fallback
    else
      var (target, entries) := targets[|targets| - 1];
      if target == c && Matches(row, key, Keys(entries)) then Lookup(entries, Cell(row, key))
      else Derive(row, key, targets[..|targets| - 1], c, fallback)
  }

  /**
   The value `c` ends with: the last (source, target) pair, in book order,
   whose table matches the source column's value in the row as it entered
   the stage; the row's own value when no pair does.
   */
  function Enhanced1(row: Row, c: string, book: EnhanceBook): Option<string> {
    if book == [] then Cell(row, c)
    else
      var (key, targets) := book[|book| - 1];
      Derive(row, key, targets, c, Enhanced1(row, c, book[..|book| - 1]))
  }

  lemma {:induction false} DeriveSameSource(a: Row, b: Row, key: string, targets: Dict<Dict<Entry>>, c: string, fallback: Option<string>)
    requires Cell(a, key) == Cell(b, key)
    ensures Derive(a, key, targets, c, fallback) == Derive(b, key, targets, c, fallback)
  {
    if targets != [] {
      DeriveSameSource(a, b, key, targets[..|targets| - 1], c, fallback);
    }
  }

  lemma {:induction false} EnhanceTargetsCells(rows: Table, key: string, targets: Dict<Dict<Entry>>)
    requires !HasKey(targets, key)
    ensures forall i, c :: 0 <= i < |rows| ==>
      Cell(EnhanceTargets(rows, key, targets).rows[i], c) == Derive(rows[i], key, targets, c, Cell(rows[i], c))
  {
    if targets != [] {
      var init := targets[..|targets| - 1];
      var (target, entries) := targets[|targets| - 1];
      HasKeyInit(targets, key);
      EnhanceTargetsCells(rows, key, init);
      EnhanceTargetsFrame(rows, key, init);
      var r := EnhanceTargets(rows, key, init);
      forall i, c | 0 <= i < |rows|
        ensures Cell(EnhanceTargets(rows, key, targets).rows[i], c) == Derive(rows[i], key, targets, c, Cell(rows[i], c))
      {
        assert Cell(r.rows[i], key) == Cell(rows[i], key);
        EnhanceCell(r.rows[i], key, target, entries, c);
      }
    }
  }

  lemma IndependentInit(book: EnhanceBook)
    requires book != [] && Independent(book)
    ensures Independent(book[..|book| - 1])
    ensures !IsTarget(book, book[|book| - 1].0)
  {
    var init := book[..|book| - 1];
    forall j, t | 0 <= j < |init| && 0 <= t < |init[j].1| ensures !HasKey(init, init[j].1[t].0) {
      assert init[j] == book[j];
      HasKeyInit(book, init[j].1[t].0);
    }
    assert HasKey(book, book[|book| - 1].0);
  }

  /**
   When no target is also a source, the enhance stage computes every target
   from the data as it entered the stage, whatever the order of the targets
   of one source; a target fed by several source columns takes the value of
   the last matching one in book order. Any other cell is left as it was.
   */
  lemma {:induction false} EnhanceCells(rows: Table, book: EnhanceBook)
    requires Independent(book)
    ensures forall i, c :: 0 <= i < |rows| ==> Cell(EnhancePass(rows, book).rows[i], c) == Enhanced1(rows[i], c, book)
  {
    if book != [] {
      var init := book[..|book| - 1];
      var (key, targets) := book[|book| - 1];
      IndependentInit(book);
      EnhanceCells(rows, init);
      EnhanceFrame(rows, init);
      IsTargetInit(book, key);
      var r := EnhancePass(rows, init);
      EnhanceTargetsCells(r.rows, key, targets);
      forall i, c | 0 <= i < |rows| ensures Cell(EnhancePass(rows, book).rows[i], c) == Enhanced1(rows[i], c, book) {
        assert Cell(r.rows[i], key) == Cell(rows[i], key);
        DeriveSameSource(r.rows[i], rows[i], key, targets, c, Cell(r.rows[i], c));
      }
    }
  }

  /** Each target table of one source column with the counts of its keys among `rows`. */
  function CountTargets(targets: Dict<Dict<Entry>>, rows: Table, key: string): (r: Dict<Dict<Entry>>)
    ensures |r| == |targets|
  {
    if targets == [] then []
    else
      var (target, entries) := targets[|targets| - 1];
      CountTargets(targets[..|targets| - 1], rows, key) + [(target, Recount(entries, rows, key))]
  }

  lemma {:induction false} CountTargetsAt(targets: Dict<Dict<Entry>>, rows: Table, key: string)
    ensures forall t :: 0 <= t < |targets| ==>
      CountTargets(targets, rows, key)[t] == (targets[t].0, Recount(targets[t].1, rows, key))
  {
    if targets != [] {
      CountTargetsAt(targets[..|targets| - 1], rows, key);
    }
  }

  lemma {:induction false} EnhanceTargetsCounts(rows: Table, key: string, targets: Dict<Dict<Entry>>)
    requires !HasKey(targets, key)
    ensures EnhanceTargets(rows, key, targets).targets == CountTargets(targets, rows, key)
  {
    if targets != [] {
      var init := targets[..|targets| - 1];
      HasKeyInit(targets, key);
      EnhanceTargetsCounts(rows, key, init);
      EnhanceTargetsFrame(rows, key, init);
      CountsSameColumn(targets[|targets| - 1].1, EnhanceTargets(rows, key, init).rows, rows, key);
    }
  }

  /**
   When no target is also a source, every enhancement entry counts the rows
   whose source value, as the stage received it, is its key (csventrifuge.py:270-272).
   */
  lemma {:induction false} EnhanceCounts(rows: Table, book: EnhanceBook)
    requires Independent(book)
    ensures forall j :: 0 <= j < |book| ==>
      EnhancePass(rows, book).book[j] == (book[j].0, CountTargets(book[j].1, rows, book[j].0))
  {
    if book != [] {
      var init := book[..|book| - 1];
      var (key, targets) := book[|book| - 1];
      IndependentInit(book);
      EnhanceCounts(rows, init);
      EnhanceFrame(rows, init);
      IsTargetInit(book, key);
      var r := EnhancePass(rows, init);
      EnhanceTargetsCounts(r.rows, key, targets);
      CountTargetsSameColumn(targets, r.rows, rows, key);
      assert EnhancePass(rows, book).book[..|init|] == r.book;
    }
  }

  lemma {:induction false} CountTargetsSameColumn(targets: Dict<Dict<Entry>>, a: Table, b: Table, key: string)
    requires |a| == |b| && forall i :: 0 <= i < |a| ==> Cell(a[i], key) == Cell(b[i], key)
    ensures CountTargets(targets, a, key) == CountTargets(targets, b, key)
  {
    if targets != [] {
      CountTargetsSameColumn(targets[..|targets| - 1], a, b, key);
      CountsSameColumn(targets[|targets| - 1].1, a, b, key);
    }
  }

  // ---------------------------------------------------------------------
  // The stage turn by turn, with no assumption on the book

  /** The rows as the first `j` source columns of the book left them. */
  function Before(rows: Table, book: EnhanceBook, j: int): (r: Table)
    requires 0 <= j <= |book|
    ensures |r| == |rows|
  {
    EnhancePass(rows, book[..j]).rows
  }

  /**
   The rows as they enter the turn of target `t` of source column `j`: after
   every earlier source column and the first `t` targets of column `j`.
   */
  function TurnRows(rows: Table, book: EnhanceBook, j: int, t: int): Table
    requires 0 <= j < |book| && 0 <= t <= |book[j].1|
  {
    EnhanceTargets(Before(rows, book, j), book[j].0, book[j].1[..t]).rows
  }

  /** Target `t` of one source column counts the rows as the earlier targets left them. */
  lemma {:induction false} EnhanceTargetsTurn(rows: Table, key: string, targets: Dict<Dict<Entry>>, t: int)
    requires 0 <= t < |targets|
    ensures EnhanceTargets(rows, key, targets).targets[t] ==
      (targets[t].0, Recount(targets[t].1, EnhanceTargets(rows, key, targets[..t]).rows, key))
  {
    var init := targets[..|targets| - 1];
    if t < |init| {
      EnhanceTargetsTurn(rows, key, init, t);
      assert init[..t] == targets[..t];
      assert init[t] == targets[t];
    }
  }

  /** Source column `j` works on the rows as the earlier source columns left them. */
  lemma {:induction false} EnhancePassTurn(rows: Table, book: EnhanceBook, j: int)
    requires 0 <= j < |book|
    ensures EnhancePass(rows, book).book[j] ==
      (book[j].0, EnhanceTargets(EnhancePass(rows, book[..j]).rows, book[j].0, book[j].1).targets)
  {
    var init := book[..|book| - 1];
    if j < |init| {
      EnhancePassTurn(rows, init, j);
      assert init[..j] == book[..j];
      assert init[j] == book[j];
    }
  }

  /**
   Every enhancement entry counts the rows whose source value is its key,
   among the rows as the earlier (source, target) pairs left them
   (csventrifuge.py:267-272).
   */
  lemma EnhanceCountsAt(rows: Table, book: EnhanceBook, j: int, t: int)
    requires 0 <= j < |book| && 0 <= t < |book[j].1|
    ensures EnhancePass(rows, book).book[j].0 == book[j].0
    ensures |EnhancePass(rows, book).book[j].1| == |book[j].1|
    ensures EnhancePass(rows, book).book[j].1[t] ==
      (book[j].1[t].0, Recount(book[j].1[t].1, TurnRows(rows, book, j, t), book[j].0))
  {
    EnhancePassTurn(rows, book, j);
    EnhanceTargetsTurn(EnhancePass(rows, book[..j]).rows, book[j].0, book[j].1, t);
  }

  /**
   When no target is also a source, every turn's rows hold its source column
   as the stage received it, so the turns read one snapshot.
   */
  lemma TurnRowsIndependent(rows: Table, book: EnhanceBook, j: int, t: int)
    requires Independent(book) && 0 <= j < |book| && 0 <= t <= |book[j].1|
    ensures |TurnRows(rows, book, j, t)| == |rows|
    ensures forall i :: 0 <= i < |rows| ==> Cell(TurnRows(rows, book, j, t)[i], book[j].0) == Cell(rows[i], book[j].0)
  {
    var key := book[j].0;
    var init := book[..j];
    assert HasKey(book, key);
    assert !IsTarget(init, key);
    var part := book[j].1[..t];
    assert !HasKey(part, key);
    EnhanceFrame(rows, init);
    EnhanceTargetsFrame(EnhancePass(rows, init).rows, key, part);
  }

  /**
   No turn of source column `key` with target `c` matched row `i` as that
   turn received it, taken turn by turn like `EnhanceTargets`.
   */
  predicate UnderivedInSource(rows: Table, key: string, targets: Dict<Dict<Entry>>, i: int, c: string)
    requires 0 <= i < |rows|
    decreases |targets|
  {
    targets == [] ||
      var init := targets[..|targets| - 1];
      UnderivedInSource(rows, key, init, i, c)
      && (targets[|targets| - 1].0 == c ==>
            !Matches(EnhanceTargets(rows, key, init).rows[i], key, Keys(targets[|targets| - 1].1)))
  }

  /** A target stays null through one source column's turns exactly when it was null and no turn for it matched. */
  lemma {:induction false} EnhanceTargetsNone(rows: Table, key: string, targets: Dict<Dict<Entry>>, i: int, c: string)
    requires 0 <= i < |rows|
    ensures Cell(EnhanceTargets(rows, key, targets).rows[i], c).None? <==>
      Cell(rows[i], c).None? && UnderivedInSource(rows, key, targets, i, c)
  {
    if targets != [] {
      var init := targets[..|targets| - 1];
      var (target, entries) := targets[|targets| - 1];
      EnhanceTargetsNone(rows, key, init, i, c);
      EnhanceCell(EnhanceTargets(rows, key, init).rows[i], key, target, entries, c);
    }
  }

  /**
   No turn with target `c`, in any source column, matched row `i` as that
   turn received it, taken source column by source column like `EnhancePass`.
   */
  predicate UnderivedInTurns(rows: Table, book: EnhanceBook, i: int, c: string)
    requires 0 <= i < |rows|
    decreases |book|
  {
    book == [] ||
      var init := book[..|book| - 1];
      UnderivedInTurns(rows, init, i, c)
      && UnderivedInSource(EnhancePass(rows, init).rows, book[|book| - 1].0, book[|book| - 1].1, i, c)
  }

  /** A cell is null after the stage exactly when it was null and no turn for its column matched the row. */
  lemma {:induction false} EnhancePassNone(rows: Table, book: EnhanceBook, i: int, c: string)
    requires 0 <= i < |rows|
    ensures Cell(EnhancePass(rows, book).rows[i], c).None? <==> Cell(rows[i], c).None? && UnderivedInTurns(rows, book, i, c)
  {
    if book != [] {
      var init := book[..|book| - 1];
      var (key, targets) := book[|book| - 1];
      EnhancePassNone(rows, init, i, c);
      EnhanceTargetsNone(EnhancePass(rows, init).rows, key, targets, i, c);
    }
  }

  // ---------------------------------------------------------------------
  // The check for enhanced columns left null (csventrifuge.py:280-282)

  /** The (column, row index) pairs reported: an enhanced column whose cell is null. */
  function MissingEnhancements(rows: Table, enhanced: set<string>): set<(string, nat)> {
    set c, i: nat | c in enhanced && i < |rows| && Cell(rows[i], c).None? :: (c, i)
  }

  /** No pair of the book with target `c` matches the row. */
  predicate Underived(row: Row, c: string, book: EnhanceBook) {
    forall j, t :: 0 <= j < |book| && 0 <= t < |book[j].1| && book[j].1[t].0 == c ==>
      !Matches(row, book[j].0, Keys(book[j].1[t].1))
  }

  lemma {:induction false} DeriveNone(row: Row, key: string, targets: Dict<Dict<Entry>>, c: string, fallback: Option<string>)
    ensures Derive(row, key, targets, c, fallback).None? <==>
      fallback.None? && forall t :: 0 <= t < |targets| && targets[t].0 == c ==> !Matches(row, key, Keys(targets[t].1))
  {
    if targets != [] {
      var init := targets[..|targets| - 1];
      var (target, entries) := targets[|targets| - 1];
      DeriveNone(row, key, init, c, fallback);
      EnhanceCell(row, key, target, entries, c);
      assert forall t :: 0 <= t < |init| ==> init[t] == targets[t];
    }
  }

  lemma {:induction false} Enhanced1None(row: Row, c: string, book: EnhanceBook)
    ensures Enhanced1(row, c, book).None? <==> Cell(row, c).None? && Underived(row, c, book)
  {
    if book != [] {
      var init := book[..|book| - 1];
      var (key, targets) := book[|book| - 1];
      Enhanced1None(row, c, init);
      DeriveNone(row, key, targets, c, Enhanced1(row, c, init));
      assert forall j :: 0 <= j < |init| ==> init[j] == book[j];
    }
  }

  /**
   The null check after the stage (csventrifuge.py:280-282): a (column, row)
   pair is reported exactly when the column is enhanced, the row held no
   value there on entering the stage, and no turn for that column matched
   the row as the turn received it.
   */
  lemma MissingReport(rows: Table, book: EnhanceBook, enhanced: set<string>)
    ensures forall c, i: nat :: (c, i) in MissingEnhancements(EnhancePass(rows, book).rows, enhanced) <==>
      c in enhanced && i < |rows| && Cell(rows[i], c).None? && UnderivedInTurns(rows, book, i, c)
  {
    forall c, i: nat | i < |rows| ensures Cell(EnhancePass(rows, book).rows[i], c).None? <==>
      Cell(rows[i], c).None? && UnderivedInTurns(rows, book, i, c)
    {
      EnhancePassNone(rows, book, i, c);
    }
  }

  /**
   When no target is also a source, a (column, row) pair is reported exactly
   when the column is an enhancement target, the row held no value there on
   entering the stage, and no table for that target matched the row.
   */
  lemma MissingReportIndependent(rows: Table, book: EnhanceBook, enhanced: set<string>)
    requires Independent(book)
    ensures forall c, i: nat :: (c, i) in MissingEnhancements(EnhancePass(rows, book).rows, enhanced) <==>
      c in enhanced && i < |rows| && Cell(rows[i], c).None? && Underived(rows[i], c, book)
  {
    EnhanceCells(rows, book);
    forall c, i: nat | i < |rows| ensures Cell(EnhancePass(rows, book).rows[i], c).None? <==>
      Cell(rows[i], c).None? && Underived(rows[i], c, book)
    {
      Enhanced1None(rows[i], c, book);
    }
  }

  /**
   A directory for `id_caclr_bat` with a file `rue.csv` mapping "79281" to
   "Rue des Jardins": the matching row gets the street, the other row keeps
   `rue` null and is the one reported.
   */
  lemma EnhanceStreetExample()
    ensures var book := [("id_caclr_bat", [("rue", [("79281", RuleEntry("Rue des Jardins", 0))])])];
      var out := EnhancePass([map["id_caclr_bat" := Some("79281")], map["id_caclr_bat" := Some("10000")]], book).rows;
      Cell(out[0], "rue") == Some("Rue des Jardins") && MissingEnhancements(out, {"rue"}) == {("rue", 1)}
  {
    var entries := [("79281", RuleEntry("Rue des Jardins", 0))];
    var book := [("id_caclr_bat", [("rue", entries)])];
    var rows := [map["id_caclr_bat" := Some("79281")], map["id_caclr_bat" := Some("10000")]];
    var out := EnhancePass(rows, book).rows;
    assert Keys(entries) == ["79281"];
    assert Get(entries, "79281") == Some(RuleEntry("Rue des Jardins", 0));
    assert Independent(book);
    EnhanceCells(rows, book);
    assert Cell(out[0], "rue") == Enhanced1(rows[0], "rue", book);
    assert Cell(out[1], "rue") == Enhanced1(rows[1], "rue", book);
    assert !Matches(rows[1], "id_caclr_bat", Keys(entries));
    assert Cell(rows[1], "rue") == None;
    var targets := [("rue", entries)];
    assert targets[..0] == [] && book[..0] == [];
    assert Enhanced1(rows[1], "rue", []) == None;
    assert Derive(rows[1], "id_caclr_bat", [], "rue", None) == None;
    assert Derive(rows[1], "id_caclr_bat", targets, "rue", None) == None;
    assert Enhanced1(rows[1], "rue", book) == Derive(rows[1], "id_caclr_bat", targets, "rue", Enhanced1(rows[1], "rue", []));
    assert Cell(out[1], "rue") == None;
    var report := MissingEnhancements(out, {"rue"});
    assert ("rue", 1) in report;
    forall p | p in report ensures p == ("rue", 1) {
      assert p.0 == "rue" && p.1 < 2 && p.1 != 0;
    }
  }
}

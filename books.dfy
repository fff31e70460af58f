/**
 The books of csventrifuge and the loaders that build them
 (csventrifuge.py:28-43, 149-222).

 The file system is a parameter: for rules and filters, a map from a column
 to the parsed two-field rows of that column's file, holding exactly the
 columns whose file exists; for enhancements, a map from a source column to
 the listing of its directory, each entry a file name with its parsed rows,
 in listing order.
 */
module Books {
  import opened Wrappers
  import opened Dict
  import opened Paths

  /**
   The two entry records of csventrifuge.py:29-38, each with its use counter:
   a rule or enhancement entry holds the replacement, a filter entry the
   filtered value itself.
   */
  datatype Entry = RuleEntry(replacement: string, count: nat) | FilterEntry(value: string, count: nat)
  {
    /** The replacement of a rule, the value of a filter. */
    function Text(): string {
      match this
      case RuleEntry(r, _) => r
      case FilterEntry(v, _) => v
    }
  }

  type Rulebook = Dict<Dict<Entry>>
  type EnhanceBook = Dict<Dict<Dict<Entry>>>
  type FilterBook = Dict<Dict<Entry>>

  /** The parsed rows of one two-field, tab-separated file. */
  type Pairs = seq<(string, string)>
  /** The entries of one enhancement directory: file name and parsed rows. */
  type Listing = seq<(string, Pairs)>

  predicate Distinct(s: seq<string>) {
    forall i, j :: 0 <= i < j < |s| ==> s[i] != s[j]
  }

  // ---------------------------------------------------------------------
  // Filling one dictionary, entry by entry, in file order

  /** `for x in xs: d[key(x)] = val(x)`, starting from an empty dict. */
  function PutAll<X, E>(xs: seq<X>, key: X -> string, val: X -> E): Dict<E>
  {
    if xs == [] then []
    else Put(PutAll(xs[..|xs| - 1], key, val), key(xs[|xs| - 1]), val(xs[|xs| - 1]))
  }

  lemma {:induction false} PutAllUnique<X, E>(xs: seq<X>, key: X -> string, val: X -> E)
    ensures UniqueKeys(PutAll(xs, key, val))
  {
    if xs != [] {
      PutAllUnique(xs[..|xs| - 1], key, val);
      PutUnique(PutAll(xs[..|xs| - 1], key, val), key(xs[|xs| - 1]), val(xs[|xs| - 1]));
    }
  }

  /** Each stored pair comes from some element of the input. */
  lemma {:induction false} PutAllFrom<X, E>(xs: seq<X>, key: X -> string, val: X -> E)
    ensures forall p :: p in PutAll(xs, key, val) ==>
      exists i :: 0 <= i < |xs| && p == (key(xs[i]), val(xs[i]))
  {
    if xs != [] {
      var init := xs[..|xs| - 1];
      PutAllFrom(init, key, val);
      PutElems(PutAll(init, key, val), key(xs[|xs| - 1]), val(xs[|xs| - 1]));
      forall p | p in PutAll(xs, key, val)
        ensures exists i :: 0 <= i < |xs| && p == (key(xs[i]), val(xs[i]))
      {
        if p in PutAll(init, key, val) {
          var i :| 0 <= i < |init| && p == (key(init[i]), val(init[i]));
          assert init[i] == xs[i];
        } else {
          assert p == (key(xs[|xs| - 1]), val(xs[|xs| - 1]));
        }
      }
    }
  }

  /** A key is present exactly when some element produced it. */
  lemma {:induction false} PutAllHasKey<X, E>(xs: seq<X>, key: X -> string, val: X -> E, k: string)
    ensures HasKey(PutAll(xs, key, val), k) <==> exists i :: 0 <= i < |xs| && key(xs[i]) == k
  {
    if xs != [] {
      var init := xs[..|xs| - 1];
      PutAllHasKey(init, key, val, k);
      PutGet(PutAll(init, key, val), key(xs[|xs| - 1]), val(xs[|xs| - 1]), k);
      if exists i :: 0 <= i < |init| && key(init[i]) == k {
        var i :| 0 <= i < |init| && key(init[i]) == k;
        assert xs[i] == init[i];
      }
      if exists i :: 0 <= i < |xs| && key(xs[i]) == k {
        var i :| 0 <= i < |xs| && key(xs[i]) == k;
        if i < |init| { assert init[i] == xs[i]; }
      }
    }
  }

  /** A later element with the same key overwrites an earlier one: the last one wins. */
  lemma {:induction false} PutAllLastWins<X, E>(xs: seq<X>, key: X -> string, val: X -> E, i: nat)
    requires i < |xs|
    requires forall j :: i < j < |xs| ==> key(xs[j]) != key(xs[i])
    ensures Get(PutAll(xs, key, val), key(xs[i])) == Some(val(xs[i]))
  {
    var init := xs[..|xs| - 1];
    PutGet(PutAll(init, key, val), key(xs[|xs| - 1]), val(xs[|xs| - 1]), key(xs[i]));
    if i < |xs| - 1 {
      assert forall j :: i < j < |init| ==> init[j] == xs[j];
      PutAllLastWins(init, key, val, i);
    }
  }

  // ---------------------------------------------------------------------
  // The entries of one file

  function RowKey(row: (string, string)): string { row.0 }
  /** `RuleEntry(new)`: a fresh rule with count 0 (csventrifuge.py:30-32, 167). */
  function NewRule(row: (string, string)): Entry { RuleEntry(row.1, 0) }
  /** `FilterEntry(value)`: the entry keeps the value, not the note (csventrifuge.py:36-38, 220). */
  function NewFilter(row: (string, string)): Entry { FilterEntry(row.0, 0) }

  function RuleFile(rows: Pairs): Dict<Entry> { PutAll(rows, RowKey, NewRule) }
  function FilterFile(rows: Pairs): Dict<Entry> { PutAll(rows, RowKey, NewFilter) }

  function FileKey(file: (string, Pairs)): string { Stem(file.0) }
  function FileTable(file: (string, Pairs)): Dict<Entry> { RuleFile(file.1) }

  /** The targets of one enhancement directory: stem of each file to its table. */
  function TargetsOf(listing: Listing): Dict<Dict<Entry>> { PutAll(listing, FileKey, FileTable) }

  /** Every entry of the table is still unused. */
  predicate Fresh(d: Dict<Entry>) { forall i :: 0 <= i < |d| ==> d[i].1.count == 0 }

  /** What one file loads: unique keys, each with the last replacement given for it, count 0. */
  lemma RuleFileLoaded(rows: Pairs)
    ensures UniqueKeys(RuleFile(rows)) && Fresh(RuleFile(rows))
    ensures forall k :: HasKey(RuleFile(rows), k) <==> exists i :: 0 <= i < |rows| && rows[i].0 == k
  {
    PutAllUnique(rows, RowKey, NewRule);
    PutAllFrom(rows, RowKey, NewRule);
    var d := RuleFile(rows);
    forall i | 0 <= i < |d| ensures d[i].1.count == 0 {
      assert d[i] in d;
    }
    forall k ensures HasKey(d, k) <==> exists i :: 0 <= i < |rows| && rows[i].0 == k {
      PutAllHasKey(rows, RowKey, NewRule, k);
    }
  }

  /** The same for a filter file; each entry's value is its own key. */
  lemma FilterFileLoaded(rows: Pairs)
    ensures UniqueKeys(FilterFile(rows)) && Fresh(FilterFile(rows))
    ensures forall i :: 0 <= i < |FilterFile(rows)| ==> FilterFile(rows)[i].1 == FilterEntry(FilterFile(rows)[i].0, 0)
    ensures forall k :: HasKey(FilterFile(rows), k) <==> exists i :: 0 <= i < |rows| && rows[i].0 == k
  {
    PutAllUnique(rows, RowKey, NewFilter);
    PutAllFrom(rows, RowKey, NewFilter);
    var d := FilterFile(rows);
    forall i | 0 <= i < |d| ensures d[i].1 == FilterEntry(d[i].0, 0) {
      assert d[i] in d;
    }
    forall k ensures HasKey(d, k) <==> exists i :: 0 <= i < |rows| && rows[i].0 == k {
      PutAllHasKey(rows, RowKey, NewFilter, k);
    }
  }

  /** A later duplicate key in a rule file overwrites the earlier one. */
  lemma RuleFileLastWins(rows: Pairs, i: nat)
    requires i < |rows|
    requires forall j :: i < j < |rows| ==> rows[j].0 != rows[i].0
    ensures Get(RuleFile(rows), rows[i].0) == Some(RuleEntry(rows[i].1, 0))
  {
    PutAllLastWins(rows, RowKey, NewRule, i);
  }

  // ---------------------------------------------------------------------
  // One book: a table per column that has a file

  /** `for key in keys: if key has a file: book[key] = load(file)`. */
  function BookOf<F, T>(files: map<string, F>, keys: seq<string>, load: F -> T): Dict<T>
  {
    if keys == [] then []
    else
      var book := BookOf(files, keys[..|keys| - 1], load);
      var key := keys[|keys| - 1];
      if key in files then Put(book, key, load(files[key])) else book
  }

  /** A source without files of a kind gets an empty book of that kind. */
  lemma {:induction false} BookOfNone<F, T>(keys: seq<string>, load: F -> T)
    ensures BookOf(map[], keys, load) == []
  {
    if keys != [] {
      BookOfNone(keys[..|keys| - 1], load);
    }
  }

  /** The columns of `keys` that have a file, in order. */
  function WithFile<F>(files: map<string, F>, keys: seq<string>): (ks: seq<string>)
    ensures forall k :: k in ks <==> k in keys && k in files
  {
    if keys == [] then []
    else WithFile(files, keys[..|keys| - 1]) + (if keys[|keys| - 1] in files then [keys[|keys| - 1]] else [])
  }

  /** A column gets a table exactly when it is a key with a file; the table is its file's. */
  lemma {:induction false} BookOfGet<F, T>(files: map<string, F>, keys: seq<string>, load: F -> T, k: string)
    ensures Get(BookOf(files, keys, load), k) == if k in keys && k in files then Some(load(files[k])) else None
  {
    if keys != [] {
      var init := keys[..|keys| - 1];
      BookOfGet(files, init, load, k);
      var key := keys[|keys| - 1];
      if key in files {
        PutGet(BookOf(files, init, load), key, load(files[key]), k);
      }
      assert keys == init + [key];
    }
  }

  /** The book's columns are the keys with a file, in the order of `keys`, each once. */
  lemma {:induction false} BookOfKeys<F, T>(files: map<string, F>, keys: seq<string>, load: F -> T)
    requires Distinct(keys)
    ensures Keys(BookOf(files, keys, load)) == WithFile(files, keys)
    ensures UniqueKeys(BookOf(files, keys, load))
  {
    if keys != [] {
      var init := keys[..|keys| - 1];
      var key := keys[|keys| - 1];
      BookOfKeys(files, init, load);
      var book := BookOf(files, init, load);
      if key in files {
        PutKeys(book, key, load(files[key]));
        PutUnique(book, key, load(files[key]));
        BookOfGet(files, init, load, key);
      }
    }
  }

  /** Every table of a book is the load of its own column's file, and no column has two. */
  lemma {:induction false} BookOfFrom<F, T>(files: map<string, F>, keys: seq<string>, load: F -> T)
    ensures UniqueKeys(BookOf(files, keys, load))
    ensures forall j :: 0 <= j < |BookOf(files, keys, load)| ==>
      BookOf(files, keys, load)[j].0 in files && BookOf(files, keys, load)[j].1 == load(files[BookOf(files, keys, load)[j].0])
  {
    if keys != [] {
      var init := keys[..|keys| - 1];
      var key := keys[|keys| - 1];
      BookOfFrom(files, init, load);
      var book := BookOf(files, init, load);
      if key in files {
        PutUnique(book, key, load(files[key]));
        PutElems(book, key, load(files[key]));
        var grown := Put(book, key, load(files[key]));
        forall j | 0 <= j < |grown| ensures grown[j].0 in files && grown[j].1 == load(files[grown[j].0]) {
          assert grown[j] in grown;
          if grown[j] in book {
            var i :| 0 <= i < |book| && book[i] == grown[j];
          }
        }
      }
    }
  }

  function RulebookOf(files: map<string, Pairs>, keys: seq<string>): Rulebook { BookOf(files, keys, RuleFile) }
  function FilterbookOf(files: map<string, Pairs>, keys: seq<string>): FilterBook { BookOf(files, keys, FilterFile) }
  function EnhanceBookOf(dirs: map<string, Listing>, keys: seq<string>): EnhanceBook { BookOf(dirs, keys, TargetsOf) }

  // ---------------------------------------------------------------------
  // Growth of the column list during enhancement loading

  /** The stems of a directory's files, in listing order. */
  function Stems(listing: Listing): (ts: seq<string>)
    ensures |ts| == |listing|
    ensures forall i :: 0 <= i < |listing| ==> ts[i] == Stem(listing[i].0)
  {
    if listing == [] then [] else Stems(listing[..|listing| - 1]) + [Stem(listing[|listing| - 1].0)]
  }

  /** Every target met while scanning `keys`, in scanning order. */
  function AllTargets(dirs: map<string, Listing>, keys: seq<string>): seq<string>
  {
    if keys == [] then []
    else
      var key := keys[|keys| - 1];
      AllTargets(dirs, keys[..|keys| - 1]) + (if key in dirs then Stems(dirs[key]) else [])
  }

  /** `for t in ts: if t not in cols: cols.append(t)`. */
  function AppendNew(cols: seq<string>, ts: seq<string>): seq<string>
  {
    if ts == [] then cols
    else
      var grown := AppendNew(cols, ts[..|ts| - 1]);
      if ts[|ts| - 1] in grown then grown else grown + [ts[|ts| - 1]]
  }

  /** Growth only appends: the old list is a prefix, the rest are targets that were not there. */
  lemma {:induction false} AppendNewGrows(cols: seq<string>, ts: seq<string>)
    ensures cols <= AppendNew(cols, ts)
    ensures forall x :: x in AppendNew(cols, ts) <==> x in cols || x in ts
    ensures forall i :: |cols| <= i < |AppendNew(cols, ts)| ==>
      AppendNew(cols, ts)[i] in ts && AppendNew(cols, ts)[i] !in cols
  {
    if ts != [] {
      var init := ts[..|ts| - 1];
      AppendNewGrows(cols, init);
      assert ts == init + [ts[|ts| - 1]];
    }
  }

  /** Growth introduces no duplicate. */
  lemma {:induction false} AppendNewDistinct(cols: seq<string>, ts: seq<string>)
    requires Distinct(cols)
    ensures Distinct(AppendNew(cols, ts))
  {
    if ts != [] {
      AppendNewDistinct(cols, ts[..|ts| - 1]);
    }
  }

  /** The list that `load_enhancements` leaves behind when it starts from `keys`. */
  function GrownColumns(dirs: map<string, Listing>, keys: seq<string>): seq<string>
  {
    AppendNew(keys, AllTargets(dirs, keys))
  }

  /** The `enhanced` set that `load_enhancements` returns. */
  function EnhancedOf(dirs: map<string, Listing>, keys: seq<string>): set<string>
  {
    Elems(AllTargets(dirs, keys))
  }

  /** Column `k` has an enhancement directory with a file for target `t`. */
  predicate Provides(dirs: map<string, Listing>, k: string, t: string) {
    k in dirs && t in Stems(dirs[k])
  }

  /** The targets met are exactly the stems of the files of the scanned columns' directories. */
  lemma {:induction false} AllTargetsIn(dirs: map<string, Listing>, keys: seq<string>, t: string)
    ensures t in AllTargets(dirs, keys) <==> exists k :: k in keys && Provides(dirs, k, t)
  {
    if keys != [] {
      var init := keys[..|keys| - 1];
      var key := keys[|keys| - 1];
      AllTargetsIn(dirs, init, t);
      assert t in AllTargets(dirs, keys) <==> t in AllTargets(dirs, init) || Provides(dirs, key, t);
      assert forall k :: k in keys <==> k in init || k == key by {
        assert keys == init + [key];
      }
    }
  }

  /**
   What `load_enhancements` promises about the column list (csventrifuge.py:175-185):
   the original columns stay, in order, as a prefix; the only columns added are
   targets that were missing; no duplicate appears; every target ends up in it
   and in `enhanced`; and only the original columns are scanned, so the book has
   a table exactly for the original columns with a directory.
   */
  lemma EnhancementLoading(dirs: map<string, Listing>, keys: seq<string>)
    requires Distinct(keys)
    ensures keys <= GrownColumns(dirs, keys)
    ensures Distinct(GrownColumns(dirs, keys))
    ensures forall t :: t in EnhancedOf(dirs, keys) ==> t in GrownColumns(dirs, keys)
    ensures forall i :: |keys| <= i < |GrownColumns(dirs, keys)| ==>
      GrownColumns(dirs, keys)[i] in EnhancedOf(dirs, keys) && GrownColumns(dirs, keys)[i] !in keys
    ensures Keys(EnhanceBookOf(dirs, keys)) == WithFile(dirs, keys)
  {
    var ts := AllTargets(dirs, keys);
    AppendNewGrows(keys, ts);
    AppendNewDistinct(keys, ts);
    BookOfKeys(dirs, keys, TargetsOf);
    forall t ensures t in EnhancedOf(dirs, keys) <==> t in ts {
      ElemsIn(ts, t);
    }
  }

  // ---------------------------------------------------------------------
  // The loaders

  /** The mutable column list that `load_enhancements` appends to. */
  class ColumnList {
    var names: seq<string>

    constructor (names: seq<string>)
      ensures this.names == names
    {
      this.names := names;
    }
  }

  /** The inner loop of every loader: fill a fresh dict from a file's rows. */
  method ReadEntries<E>(rows: seq<(string, string)>, mk: ((string, string)) -> E) returns (entries: Dict<E>)
    ensures entries == PutAll(rows, RowKey, mk)
  {
    entries := [];
    for j := 0 to |rows|
      invariant entries == PutAll(rows[..j], RowKey, mk)
    {
      assert rows[..j + 1][..j] == rows[..j];
      entries := Put(entries, rows[j].0, mk(rows[j]));
    }
    assert rows[..|rows|] == rows;
  }

  /** The shared loop of `load_rules` and `load_filters`. */
  method LoadBook<E>(files: map<string, Pairs>, keys: seq<string>, mk: ((string, string)) -> E,
                     ghost load: Pairs -> Dict<E>)
    returns (book: Dict<Dict<E>>)
    requires forall rows :: load(rows) == PutAll(rows, RowKey, mk)
    ensures book == BookOf(files, keys, load)
  {
    book := [];
    for i := 0 to |keys|
      invariant book == BookOf(files, keys[..i], load)
    {
      assert keys[..i + 1][..i] == keys[..i];
      var key := keys[i];
      if key in files {
        book := Put(book, key, []);
        var entries := ReadEntries(files[key], mk);
        PutPut(BookOf(files, keys[..i], load), key, [], entries);
        book := Put(book, key, entries);
      }
    }
    assert keys[..|keys|] == keys;
  }

  /** `load_rules` (csventrifuge.py:149-168). */
  method LoadRules(files: map<string, Pairs>, keys: seq<string>) returns (book: Rulebook)
    ensures book == RulebookOf(files, keys)
    ensures forall k :: Get(book, k) == if k in keys && k in files then Some(RuleFile(files[k])) else None
  {
    book := LoadBook(files, keys, NewRule, RuleFile);
    forall k ensures Get(book, k) == if k in keys && k in files then Some(RuleFile(files[k])) else None {
      BookOfGet(files, keys, RuleFile, k);
    }
  }

  /** `load_filters` (csventrifuge.py:202-222). */
  method LoadFilters(files: map<string, Pairs>, keys: seq<string>) returns (book: FilterBook)
    ensures book == FilterbookOf(files, keys)
    ensures forall k :: Get(book, k) == if k in keys && k in files then Some(FilterFile(files[k])) else None
  {
    book := LoadBook(files, keys, NewFilter, FilterFile);
    forall k ensures Get(book, k) == if k in keys && k in files then Some(FilterFile(files[k])) else None {
      BookOfGet(files, keys, FilterFile, k);
    }
  }

  /** What one more file of a directory adds to each of the loop's three results. */
  lemma DirectoryStep(listing: Listing, j: nat, cols: seq<string>)
    requires j < |listing|
    ensures var target := Stem(listing[j].0);
      && TargetsOf(listing[..j + 1]) == Put(TargetsOf(listing[..j]), target, RuleFile(listing[j].1))
      && AppendNew(cols, Stems(listing[..j + 1])) ==
           (var grown := AppendNew(cols, Stems(listing[..j])); if target in grown then grown else grown + [target])
      && Elems(Stems(listing[..j + 1])) == Elems(Stems(listing[..j])) + {target}
  {
    assert listing[..j + 1][..j] == listing[..j];
    ElemsConcat(Stems(listing[..j]), [Stem(listing[j].0)]);
  }

  /** The inner loop of `load_enhancements` over one directory (csventrifuge.py:180-197). */
  method LoadDirectory(listing: Listing, cols: ColumnList, enhanced: set<string>)
    returns (targets: Dict<Dict<Entry>>, enhanced': set<string>)
    modifies cols
    ensures targets == TargetsOf(listing)
    ensures cols.names == AppendNew(old(cols.names), Stems(listing))
    ensures enhanced' == enhanced + Elems(Stems(listing))
  {
    targets, enhanced' := [], enhanced;
    ghost var start := cols.names;
    for j := 0 to |listing|
      invariant targets == TargetsOf(listing[..j])
      invariant cols.names == AppendNew(start, Stems(listing[..j]))
      invariant enhanced' == enhanced + Elems(Stems(listing[..j]))
    {
      var target := Stem(listing[j].0);
      DirectoryStep(listing, j, start);
      if target !in cols.names {
        cols.names := cols.names + [target];
      }
      assert enhanced' + {target} == enhanced + Elems(Stems(listing[..j + 1]));
      enhanced' := enhanced' + {target};
      var entries := ReadEntries(listing[j].1, NewRule);
      PutPut(targets, target, [], entries);
      targets := Put(targets, target, []);
      targets := Put(targets, target, entries);
    }
    assert listing[..|listing|] == listing;
  }

  /** The elements of a sequence, as a set. */
  function Elems(ts: seq<string>): set<string> {
    if ts == [] then {} else Elems(ts[..|ts| - 1]) + {ts[|ts| - 1]}
  }

  lemma {:induction false} ElemsIn(ts: seq<string>, t: string)
    ensures t in Elems(ts) <==> t in ts
  {
    if ts != [] {
      ElemsIn(ts[..|ts| - 1], t);
      assert ts == ts[..|ts| - 1] + [ts[|ts| - 1]];
    }
  }

  lemma {:induction false} ElemsConcat(a: seq<string>, b: seq<string>)
    ensures Elems(a + b) == Elems(a) + Elems(b)
  {
    if b != [] {
      ElemsConcat(a, b[..|b| - 1]);
      assert (a + b)[..|a + b| - 1] == a + b[..|b| - 1];
    } else {
      assert a + b == a;
    }
  }

  /** Appending two runs of targets is appending their concatenation. */
  lemma {:induction false} AppendNewConcat(cols: seq<string>, a: seq<string>, b: seq<string>)
    ensures AppendNew(AppendNew(cols, a), b) == AppendNew(cols, a + b)
  {
    if b != [] {
      AppendNewConcat(cols, a, b[..|b| - 1]);
      assert (a + b)[..|a + b| - 1] == a + b[..|b| - 1];
    } else {
      assert a + b == a;
    }
  }

  /** `load_enhancements` (csventrifuge.py:171-199): scans a snapshot of the columns and appends new targets. */
  method LoadEnhancements(dirs: map<string, Listing>, cols: ColumnList) returns (book: EnhanceBook, enhanced: set<string>)
    modifies cols
    ensures cols.names == GrownColumns(dirs, old(cols.names))
    ensures book == EnhanceBookOf(dirs, old(cols.names))
    ensures enhanced == EnhancedOf(dirs, old(cols.names))
  {
    var keys := cols.names;
    book, enhanced := [], {};
    for i := 0 to |keys|
      invariant book == EnhanceBookOf(dirs, keys[..i])
      invariant cols.names == AppendNew(keys, AllTargets(dirs, keys[..i]))
      invariant enhanced == Elems(AllTargets(dirs, keys[..i]))
    {
      assert keys[..i + 1][..i] == keys[..i];
      var key := keys[i];
      ghost var before := AllTargets(dirs, keys[..i]);
      assert AllTargets(dirs, keys[..i + 1]) == before + (if key in dirs then Stems(dirs[key]) else []);
      assert EnhanceBookOf(dirs, keys[..i + 1]) ==
        if key in dirs then Put(EnhanceBookOf(dirs, keys[..i]), key, TargetsOf(dirs[key]))
        else EnhanceBookOf(dirs, keys[..i]);
      if key in dirs {
        ElemsConcat(before, Stems(dirs[key]));
        book := Put(book, key, []);
        var targets;
        targets, enhanced := LoadDirectory(dirs[key], cols, enhanced);
        AppendNewConcat(keys, before, Stems(dirs[key]));
        PutPut(EnhanceBookOf(dirs, keys[..i]), key, [], targets);
        book := Put(book, key, targets);
      } else {
        assert AllTargets(dirs, keys[..i + 1]) == before;
      }
    }
    assert keys[..|keys|] == keys;
  }
}

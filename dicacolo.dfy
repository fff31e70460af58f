/**
 The fixed-width reader of the CACLR street directory (TR.DICACOLO.RUCP):
 every line of the file is cut into six fields at fixed offsets, and each
 field loses its trailing blanks.
 */
module Dicacolo {
  import opened Dict

  /** `s.rstrip(" ")`: `s` without its trailing spaces (other blanks stay). */
  function RStrip(s: string): (r: string)
    ensures |r| <= |s| && r == s[..|r|]
    ensures r == [] || r[|r| - 1] != ' '
    ensures forall j :: |r| <= j < |s| ==> s[j] == ' '
  {
    if s == [] || s[|s| - 1] != ' ' then s else RStrip(s[..|s| - 1])
  }

  /** The three properties above pin the stripped string down: it is the only one. */
  lemma {:induction false} RStripUnique(s: string, r: string)
    requires |r| <= |s| && r == s[..|r|]
    requires r == [] || r[|r| - 1] != ' '
    requires forall j :: |r| <= j < |s| ==> s[j] == ' '
    ensures RStrip(s) == r
  {
    if |r| < |s| {
      assert s[|s| - 1] == ' ';
      var init := s[..|s| - 1];
      assert r == init[..|r|];
      RStripUnique(init, r);
    }
  }

  /** Stripping twice strips nothing more. */
  lemma RStripIdempotent(s: string)
    ensures RStrip(RStrip(s)) == RStrip(s)
  {
  }

  function Min(a: int, b: int): int {
    if a <= b then a else b
  }

  /** `data[s:s + l]` for non-negative `s` and `l`: both ends are clipped to the string. */
  function Slice(data: string, s: nat, l: nat): (r: string)
    ensures |r| == Min(l, |data| - Min(s, |data|))
    ensures s <= |data| ==> r == data[s..Min(s + l, |data|)]
    ensures s >= |data| ==> r == []
  {
    data[Min(s, |data|)..Min(s + l, |data|)]
  }

  /** `trimget(data, startpos, length)` (sources/luxembourg-caclr-dicacolo.py:10-11). */
  function TrimGet(data: string, s: nat, l: nat): (r: string)
    ensures |r| <= l
    ensures s <= |data| ==> |r| <= |data| - s
    ensures |r| <= |Slice(data, s, l)| && r == Slice(data, s, l)[..|r|]
    ensures r == [] || r[|r| - 1] != ' '
    ensures forall j :: |r| <= j < |Slice(data, s, l)| ==> Slice(data, s, l)[j] == ' '
  {
    RStrip(Slice(data, s, l))
  }

  /** Every character of a field is the character of the line at the same place. */
  lemma TrimGetFromLine(data: string, s: nat, l: nat, j: int)
    requires 0 <= j < |TrimGet(data, s, l)|
    ensures s + j < |data| && TrimGet(data, s, l)[j] == data[s + j]
  {
    var sl := Slice(data, s, l);
    assert TrimGet(data, s, l)[j] == sl[j];
  }

  /** Stripping a field again changes nothing. */
  lemma TrimGetStripped(data: string, s: nat, l: nat)
    ensures RStrip(TrimGet(data, s, l)) == TrimGet(data, s, l)
  {
    RStripIdempotent(Slice(data, s, l));
  }

  /** The record layout: each field's name, offset and width (sources/luxembourg-caclr-dicacolo.py:31-36). */
  const Layout: seq<(string, nat, nat)> := [
    ("district", 0, 40), ("canton", 40, 40), ("commune", 80, 40),
    ("localite", 120, 40), ("rue", 160, 40), ("code_postal", 200, 4)]

  /** The field names, in the order the reader returns them (sources/luxembourg-caclr-dicacolo.py:39). */
  const FieldNames: seq<string> := ["district", "canton", "commune", "localite", "rue", "code_postal"]

  /** The fields lie side by side from the start of the line: five of 40 characters, then the postal code of 4. */
  lemma LayoutContiguous()
    ensures Layout[0].1 == 0
    ensures forall k :: 0 < k < |Layout| ==> Layout[k].1 == Layout[k - 1].1 + Layout[k - 1].2
    ensures forall k :: 0 <= k < |Layout| - 1 ==> Layout[k].2 == 40
    ensures Layout[|Layout| - 1] == ("code_postal", 200, 4)
    ensures forall k :: 0 <= k < |Layout| ==> Layout[k].0 == FieldNames[k]
  {
  }

  /** One parsed line: its fields, in the order of the record dict. */
  type Record = Dict<string>

  /** A field of at most `width` characters that does not end in a space. */
  predicate Trimmed(x: string, width: nat) {
    |x| <= width && (x == [] || x[|x| - 1] != ' ')
  }

  /** The record of one line (sources/luxembourg-caclr-dicacolo.py:30-37). */
  function ParseLine(data: string): (r: Record)
    ensures Keys(r) == FieldNames
    ensures forall k :: 0 <= k < |Layout| ==> r[k] == (Layout[k].0, TrimGet(data, Layout[k].1, Layout[k].2))
    ensures forall k :: 0 <= k < |r| ==> Trimmed(r[k].1, Layout[k].2)
  {
    [("district", TrimGet(data, 0, 40)),
     ("canton", TrimGet(data, 40, 40)),
     ("commune", TrimGet(data, 80, 40)),
     ("localite", TrimGet(data, 120, 40)),
     ("rue", TrimGet(data, 160, 40)),
     ("code_postal", TrimGet(data, 200, 4))]
  }

  /** On a line long enough for every field, each field is its own stretch of the line, stripped. */
  lemma ParseLineLayout(data: string, k: int)
    requires |data| >= 204 && 0 <= k < |Layout|
    ensures Layout[k].1 + Layout[k].2 <= 204
    ensures ParseLine(data)[k].1 == RStrip(data[Layout[k].1..Layout[k].1 + Layout[k].2])
  {
  }

  /** A line too short for the postal code gives an empty one. */
  lemma ParseShortLine(data: string)
    requires |data| <= 200
    ensures ParseLine(data)[5] == ("code_postal", "")
  {
  }

  /** Padding blanks are stripped, a blank inside a name stays. */
  lemma TrimGetInnerBlank()
    ensures TrimGet("a b  ", 0, 40) == "a b"
  {
    assert Slice("a b  ", 0, 40) == "a b  ";
    assert RStrip("a b  ") == RStrip("a b ") == RStrip("a b") == "a b";
  }

  /** The slice comes first, then the strip: the blanks after the slice do not count. */
  lemma TrimGetCutsFirst()
    ensures TrimGet("ab  cd", 1, 3) == "b"
  {
    assert Slice("ab  cd", 1, 3) == "b  ";
    assert RStrip("b  ") == RStrip("b ") == RStrip("b") == "b";
  }

  /**
   The parsing loop of `get` (sources/luxembourg-caclr-dicacolo.py:27-39): one
   record per line, in the lines' order, and the field-name list.
   */
  method ParseRecords(lines: seq<string>) returns (caclr: seq<Record>, fieldnames: seq<string>)
    ensures |caclr| == |lines|
    ensures forall i :: 0 <= i < |lines| ==> caclr[i] == ParseLine(lines[i])
    ensures fieldnames == FieldNames
    ensures forall i :: 0 <= i < |caclr| ==> Keys(caclr[i]) == fieldnames
  {
    caclr := [];
    for i := 0 to |lines|
      invariant |caclr| == i
      invariant forall k :: 0 <= k < i ==> caclr[k] == ParseLine(lines[k])
    {
      caclr := caclr + [ParseLine(lines[i])];
    }
    fieldnames := FieldNames;
  }
}

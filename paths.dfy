/**
 File-name helpers: the stem of a file name (`pathlib.PurePath.stem`), used
 to name enhancement target columns, and `form_module`, which turns a source
 file name into a relative module name.
 */
module Paths {

  /** `s.rfind(c)`: the last index of `c` in `s`, or -1. */
  function RFind(s: string, c: char): (r: int)
    ensures -1 <= r < |s|
    ensures r >= 0 ==> s[r] == c
    ensures forall j :: r < j < |s| ==> s[j] != c
  {
    if s == [] then -1
    else if s[|s| - 1] == c then |s| - 1
    else RFind(s[..|s| - 1], c)
  }

  /** `i` is the index of the last dot of `name`. */
  predicate LastDot(name: string, i: int) {
    0 <= i < |name| && name[i] == '.' && forall j :: i < j < |name| ==> name[j] != '.'
  }

  /**
   The stem of a file name: everything before its last dot, unless that dot
   is the first or the last character, in which case the whole name.
   */
  function Stem(name: string): (stem: string)
    ensures forall i :: LastDot(name, i) && 0 < i < |name| - 1 ==> stem == name[..i]
    ensures (forall i :: LastDot(name, i) ==> i == 0 || i == |name| - 1) ==> stem == name
  {
    var i := RFind(name, '.');
    assert i >= 0 ==> LastDot(name, i);
    if 0 < i < |name| - 1 then name[..i] else name
  }

  /**
   `os.path.splitext` cuts a POSIX path at `d`: the last dot, with no slash
   after it, and a character other than a dot before it in the same path
   component.
   */
  predicate CutsAt(p: string, d: int) {
    0 <= d < |p| && p[d] == '.'
    && (forall j :: d < j < |p| ==> p[j] != '.' && p[j] != '/')
    && exists j :: 0 <= j < d && p[j] != '.' && forall k :: j <= k < d ==> p[k] != '/'
  }

  /**
   The root of `os.path.splitext` on a POSIX path: the part before the last
   dot of the last path component, provided that component has a character
   other than a dot before that dot; otherwise the whole path.
   */
  function SplitExtRoot(p: string): (root: string)
    ensures root == p || (|root| < |p| && p[|root|] == '.' && root == p[..|root|])
    ensures forall d :: CutsAt(p, d) ==> root == p[..d]
    ensures root == p || exists d :: CutsAt(p, d) && root == p[..d]
  {
    var sep := RFind(p, '/');
    var dot := RFind(p, '.');
    SplitExtRootCut(p, sep, dot);
    if dot > sep && exists j :: sep + 1 <= j < dot && p[j] != '.' then p[..dot] else p
  }

  /** The condition `splitext` tests is the cut at the last dot. */
  lemma SplitExtRootCut(p: string, sep: int, dot: int)
    requires sep == RFind(p, '/') && dot == RFind(p, '.')
    ensures (dot > sep && exists j :: sep + 1 <= j < dot && p[j] != '.') <==> CutsAt(p, dot)
    ensures forall d :: CutsAt(p, d) ==> d == dot
  {
    if dot > sep && exists j :: sep + 1 <= j < dot && p[j] != '.' {
      var j :| sep + 1 <= j < dot && p[j] != '.';
      assert forall k :: j <= k < dot ==> p[k] != '/';
    }
    if CutsAt(p, dot) {
      var j :| 0 <= j < dot && p[j] != '.' && forall k :: j <= k < dot ==> p[k] != '/';
      assert sep < j;
    }
    forall d | CutsAt(p, d) ensures d == dot {}
  }

  /** `form_module(fp)` (csventrifuge.py:78-87): "." followed by the file's root. */
  function FormModule(fp: string): (m: string)
    ensures |m| >= 1 && m[0] == '.'
    ensures forall d :: CutsAt(fp, d) ==> m == "." + fp[..d]
    ensures (forall d :: !CutsAt(fp, d)) ==> m == "." + fp
    ensures '.' !in fp ==> m == "." + fp
  {
    "." + SplitExtRoot(fp)
  }

  /**
   For a plain file name that neither starts nor ends with a dot, the module
   name is "." followed by the file's stem.
   */
  lemma FormModuleIsStem(fp: string)
    requires fp != [] && fp[0] != '.' && fp[|fp| - 1] != '.'
    requires forall j :: 0 <= j < |fp| ==> fp[j] != '/'
    ensures FormModule(fp) == "." + Stem(fp)
  {
    var dot := RFind(fp, '.');
    if dot >= 0 {
      assert LastDot(fp, dot) && 0 < dot < |fp| - 1;
      assert CutsAt(fp, dot) by {
        assert forall k :: 0 <= k < dot ==> fp[k] != '/';
      }
    } else {
      forall d ensures !CutsAt(fp, d) {
        if 0 <= d < |fp| {
          assert fp[d] != '.';
        }
      }
      forall i ensures !LastDot(fp, i) {
        if 0 <= i < |fp| {
          assert fp[i] != '.';
        }
      }
    }
  }

  /** Splitting keeps no dot of the last component after the cut. */
  lemma SplitExtRootCutsLastDot(p: string)
    requires SplitExtRoot(p) != p
    ensures '.' !in p[|SplitExtRoot(p)| + 1..]
    ensures '/' !in p[|SplitExtRoot(p)|..]
  {
    var dot := RFind(p, '.');
    var sep := RFind(p, '/');
    assert SplitExtRoot(p) == p[..dot];
    forall j | dot < j < |p| ensures p[j] != '.' && p[j] != '/' {}
  }

  /** The examples of tests/test_csventrifuge.py:25-26. */
  lemma FormModuleExample()
    ensures FormModule("example.py") == ".example"
  {
    assert RFind("example.py", '/') == -1;
    assert RFind("example.py", '.') == 7;
    assert "example.py"[0] != '.';
  }

  /** The extension is cut whatever its case. */
  lemma FormModuleUpperCase()
    ensures FormModule("another.PY") == ".another"
  {
    assert RFind("another.PY", '/') == -1;
    assert RFind("another.PY", '.') == 7;
    assert "another.PY"[0] != '.';
  }

  /** A leading dot alone does not start an extension: ".bashrc" is its own root. */
  lemma FormModuleHiddenFile()
    ensures FormModule(".bashrc") == "..bashrc"
  {
    assert RFind(".bashrc", '/') == -1;
    var r := RFind(".bashrc", '.');
    assert ".bashrc"[0] == '.';
    assert forall j :: 1 <= j < 7 ==> ".bashrc"[j] != '.';
    assert r == 0;
  }
}

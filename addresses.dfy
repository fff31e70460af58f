/**
 The enrichment of the national address list after it is parsed
 (sources/luxembourg_addresses.py:25-30): every row gains the commune code
 (the first three characters of its geoportal id) and a copy of its street
 name, and the two new columns are put at the head of the field names.
 */
module Addresses {

  /** One parsed CSV row: field name to text. */
  type Row = map<string, string>

  /** `s[:n]` for `n >= 0`: the first `n` characters, or all of them when there are fewer. */
  function Take(s: string, n: nat): (r: string)
    ensures |r| == if |s| <= n then |s| else n
    ensures r == s[..|r|]
  {
    if |s| <= n then s else s[..n]
  }

  /** A row the enrichment can read: it names both the geoportal id and the street. */
  predicate Readable(row: Row) {
    "id_geoportail" in row && "rue" in row
  }

  /** One row after the two assignments of the loop body (sources/luxembourg_addresses.py:27-28). */
  function Enriched(row: Row): (r: Row)
    requires Readable(row)
    ensures r.Keys == row.Keys + {"code_commune", "rue_orig"}
    ensures r["code_commune"] == Take(row["id_geoportail"], 3)
    ensures r["rue_orig"] == row["rue"]
    ensures forall k :: k in row && k != "code_commune" && k != "rue_orig" ==> r[k] == row[k]
  {
    row["code_commune" := Take(row["id_geoportail"], 3)]["rue_orig" := row["rue"]]
  }

  /** The commune code is a prefix of the id, three characters long when the id has three. */
  lemma CommuneCodePrefix(row: Row)
    requires Readable(row)
    ensures |row["id_geoportail"]| >= 3 ==> |Enriched(row)["code_commune"]| == 3
    ensures Enriched(row)["code_commune"] <= row["id_geoportail"]
  {
  }

  /** Enriching a row a second time changes nothing. */
  lemma EnrichedTwice(row: Row)
    requires Readable(row)
    ensures Enriched(Enriched(row)) == Enriched(row)
  {
    var once := Enriched(row);
    assert Readable(once);
    assert Enriched(once).Keys == once.Keys;
    forall k | k in once ensures Enriched(once)[k] == once[k] {
    }
  }

  /**
   The loop of `get` over the parsed rows and the two `fieldnames.insert(0, …)`
   calls: every row is enriched in place, nothing else changes, and the field
   names gain the two columns at their head.
   */
  method Enrich(addresses: array<Row>, fieldnames: seq<string>) returns (names: seq<string>)
    requires forall i :: 0 <= i < addresses.Length ==> Readable(addresses[i])
    modifies addresses
    ensures forall i :: 0 <= i < addresses.Length ==> addresses[i] == Enriched(old(addresses[i]))
    ensures names == ["rue_orig", "code_commune"] + fieldnames
  {
    for i := 0 to addresses.Length
      invariant forall k :: 0 <= k < i ==> addresses[k] == Enriched(old(addresses[k]))
      invariant forall k :: i <= k < addresses.Length ==> addresses[k] == old(addresses[k])
    {
      addresses[i] := Enriched(addresses[i]);
    }
    names := ["code_commune"] + fieldnames;
    names := ["rue_orig"] + names;
  }
}

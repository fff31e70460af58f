/**
 The conversion of the cleaned address list into the columns of
 OpenStreetMap's address scheme (process_addresses.py:18-39). A building
 whose street is "Maison" has no street: its locality becomes its place
 name instead.
 */
module AddressExport {
  import opened Wrappers
  import opened Dict
  import opened Pipeline

  /** The columns the conversion reads; polars refuses a frame without one of them. */
  const InputColumns: seq<string> :=
    ["rue", "localite", "numero", "code_postal", "lat_wgs84", "lon_wgs84", "id_caclr_bat"]

  /** The columns of the result, in the order of the final `select` (process_addresses.py:36-39). */
  const OutputColumns: seq<string> :=
    ["addr:housenumber", "addr:street", "addr:place", "addr:postcode", "addr:city",
     "lat_wgs84", "lon_wgs84", "ref:caclr"]

  predicate HasInputs(row: Row) {
    forall c :: c in InputColumns ==> c in row
  }

  /** The output columns are told apart by their length and first two characters. */
  lemma OutputColumnsDistinct()
    ensures forall i, j :: 0 <= i < j < |OutputColumns| ==> OutputColumns[i] != OutputColumns[j]
  {
    var tags := [(16, 'a', 'd'), (11, 'a', 'd'), (10, 'a', 'd'), (13, 'a', 'd'), (9, 'a', 'd'),
                 (9, 'l', 'a'), (9, 'l', 'o'), (9, 'r', 'e')];
    forall i | 0 <= i < |OutputColumns|
      ensures |OutputColumns[i]| >= 2 && (|OutputColumns[i]|, OutputColumns[i][0], OutputColumns[i][1]) == tags[i]
    {
    }
  }

  /** The street marker of a building without a street of its own. */
  const Maison := "Maison"

  /**
   `addr:street` (process_addresses.py:19-22): empty for a "Maison", the street
   otherwise. A null street compares as null, which `when` reads as false, so
   it stays null.
   */
  function Street(row: Row): (s: Option<string>)
    ensures Cell(row, "rue") == Some(Maison) ==> s == Some("")
    ensures Cell(row, "rue") != Some(Maison) ==> s == Cell(row, "rue")
  {
    if Cell(row, "rue") == Some(Maison) then Some("") else Cell(row, "rue")
  }

  /** `addr:place` (process_addresses.py:23-26): the locality for a "Maison", empty otherwise. */
  function Place(row: Row): (p: Option<string>)
    ensures Cell(row, "rue") == Some(Maison) ==> p == Cell(row, "localite")
    ensures Cell(row, "rue") != Some(Maison) ==> p == Some("")
  {
    if Cell(row, "rue") == Some(Maison) then Cell(row, "localite") else Some("")
  }

  /** An output row: its cells in column order. */
  type OutRow = Dict<Option<string>>

  /**
   One output row: the derived columns and the copies, under their new names
   (process_addresses.py:18-39), with the empty street and place read as the
   literal "" (see `ConvertAsWritten` for the code as written).
   */
  function Convert(row: Row): (r: OutRow)
    ensures Keys(r) == OutputColumns
    ensures r[1].1 == Street(row) && r[2].1 == Place(row)
  {
    [("addr:housenumber", Cell(row, "numero")),
     ("addr:street", Street(row)),
     ("addr:place", Place(row)),
     ("addr:postcode", Cell(row, "code_postal")),
     ("addr:city", Cell(row, "localite")),
     ("lat_wgs84", Cell(row, "lat_wgs84")),
     ("lon_wgs84", Cell(row, "lon_wgs84")),
     ("ref:caclr", Cell(row, "id_caclr_bat"))]
  }

  /** Looked up by name, each output column holds what the conversion put there (process_addresses.py:19-32). */
  lemma ConvertCells(row: Row)
    ensures Get(Convert(row), "addr:street") == Some(Street(row))
    ensures Get(Convert(row), "addr:place") == Some(Place(row))
    ensures Get(Convert(row), "addr:housenumber") == Some(Cell(row, "numero"))
    ensures Get(Convert(row), "addr:city") == Some(Cell(row, "localite"))
    ensures Get(Convert(row), "addr:postcode") == Some(Cell(row, "code_postal"))
    ensures Get(Convert(row), "ref:caclr") == Some(Cell(row, "id_caclr_bat"))
    ensures Get(Convert(row), "lat_wgs84") == Some(Cell(row, "lat_wgs84"))
    ensures Get(Convert(row), "lon_wgs84") == Some(Cell(row, "lon_wgs84"))
  {
    var r := Convert(row);
    OutputColumnsDistinct();
    assert UniqueKeys(r);
    GetUnique(r, 0); GetUnique(r, 1); GetUnique(r, 2); GetUnique(r, 3);
    GetUnique(r, 4); GetUnique(r, 5); GetUnique(r, 6); GetUnique(r, 7);
  }

  /**
   `out` is the output row of `row`: exactly the output columns, in order, the
   street and place as derived, and every other column the input cell it
   copies, looked up by its new name.
   */
  predicate Converted(row: Row, out: OutRow) {
    && Keys(out) == OutputColumns
    && Get(out, "addr:housenumber") == Some(Cell(row, "numero"))
    && Get(out, "addr:street") == Some(Street(row))
    && Get(out, "addr:place") == Some(Place(row))
    && Get(out, "addr:postcode") == Some(Cell(row, "code_postal"))
    && Get(out, "addr:city") == Some(Cell(row, "localite"))
    && Get(out, "lat_wgs84") == Some(Cell(row, "lat_wgs84"))
    && Get(out, "lon_wgs84") == Some(Cell(row, "lon_wgs84"))
    && Get(out, "ref:caclr") == Some(Cell(row, "id_caclr_bat"))
  }

  /** Every input row converts to an output row that holds its cells under the new names. */
  lemma ConvertAll(df: Table)
    ensures forall i :: 0 <= i < |df| ==> Converted(df[i], Convert(df[i]))
  {
    forall i | 0 <= i < |df| ensures Converted(df[i], Convert(df[i])) {
      ConvertCells(df[i]);
    }
  }

  /** A data frame after the final `select`: its column names in order and its rows. */
  datatype Frame = Frame(columns: seq<string>, rows: seq<OutRow>)

  /** `process_addresses` up to the CSV writer: `with_columns` then `select`, row by row. */
  function Process(df: Table): (out: Frame)
    requires forall i :: 0 <= i < |df| ==> HasInputs(df[i])
    ensures out.columns == OutputColumns
    ensures |out.rows| == |df|
    ensures forall i :: 0 <= i < |df| ==> Converted(df[i], out.rows[i])
  {
    ConvertAll(df);
    Frame(OutputColumns, seq(|df|, i requires 0 <= i < |df| => Convert(df[i])))
  }

  /** A building never has both a street and a place: one of the two is empty. */
  lemma StreetOrPlace(row: Row)
    ensures Street(row) == Some("") || Place(row) == Some("")
  {
  }

  /** The street "Maison" moves the locality into the place, and an ordinary street is kept as is. */
  lemma ConvertedAddress(row: Row)
    ensures Cell(row, "rue") == Some(Maison) ==>
      Get(Convert(row), "addr:street") == Some(Some("")) && Get(Convert(row), "addr:place") == Get(Convert(row), "addr:city")
    ensures Cell(row, "rue") != Some(Maison) ==>
      Get(Convert(row), "addr:street") == Some(Cell(row, "rue")) && Get(Convert(row), "addr:place") == Some(Some(""))
  {
    ConvertCells(row);
  }

  /** Every output row has exactly the output columns, each named once. */
  lemma ProcessShape(df: Table)
    requires forall i :: 0 <= i < |df| ==> HasInputs(df[i])
    ensures forall i, j :: 0 <= i < j < |Process(df).columns| ==> Process(df).columns[i] != Process(df).columns[j]
    ensures forall i :: 0 <= i < |Process(df).rows| ==> Keys(Process(df).rows[i]) == Process(df).columns
  {
    OutputColumnsDistinct();
  }

  // ---------------------------------------------------------------------
  // The conversion as written: `then("")` and `otherwise("")` name a column

  /**
   `addr:street` as written: polars reads the bare string of `then("")`
   (process_addresses.py:20) as the column named "", not as a literal.
   */
  function StreetAsWritten(row: Row): (s: Option<string>)
    ensures Cell(row, "rue") == Some(Maison) ==> s == Cell(row, "")
    ensures Cell(row, "rue") != Some(Maison) ==> s == Street(row)
  {
    if Cell(row, "rue") == Some(Maison) then Cell(row, "") else Cell(row, "rue")
  }

  /** `addr:place` as written: `otherwise("")` (process_addresses.py:25) is likewise the column "". */
  function PlaceAsWritten(row: Row): (p: Option<string>)
    ensures Cell(row, "rue") == Some(Maison) ==> p == Place(row)
    ensures Cell(row, "rue") != Some(Maison) ==> p == Cell(row, "")
  {
    if Cell(row, "rue") == Some(Maison) then Cell(row, "localite") else Cell(row, "")
  }

  /**
   The script as written, on a frame with the given header: polars resolves
   every column an expression names against the header before it reads a row,
   so a header without a column "" fails the whole `with_columns`.
   */
  function ProcessAsWritten(header: seq<string>, df: Table): (out: Option<Frame>)
    ensures out.Some? <==> "" in header && forall c :: c in InputColumns ==> c in header
    ensures out.Some? ==> out.value.columns == OutputColumns && |out.value.rows| == |df|
    ensures out.Some? ==> forall i :: 0 <= i < |df| ==>
      Get(out.value.rows[i], "addr:street") == Some(StreetAsWritten(df[i]))
      && Get(out.value.rows[i], "addr:place") == Some(PlaceAsWritten(df[i]))
  {
    if "" in header && forall c :: c in InputColumns ==> c in header then
      var rows := seq(|df|, i requires 0 <= i < |df| => ConvertAsWritten(df[i]));
      assert forall i :: 0 <= i < |df| ==> rows[i] == ConvertAsWritten(df[i]);
      Some(Frame(OutputColumns, rows))
    else None
  }

  /** One output row as written. */
  function ConvertAsWritten(row: Row): (r: OutRow)
    ensures Keys(r) == OutputColumns
    ensures Get(r, "addr:street") == Some(StreetAsWritten(row)) && Get(r, "addr:place") == Some(PlaceAsWritten(row))
  {
    var r := [("addr:housenumber", Cell(row, "numero")),
              ("addr:street", StreetAsWritten(row)),
              ("addr:place", PlaceAsWritten(row)),
              ("addr:postcode", Cell(row, "code_postal")),
              ("addr:city", Cell(row, "localite")),
              ("lat_wgs84", Cell(row, "lat_wgs84")),
              ("lon_wgs84", Cell(row, "lon_wgs84")),
              ("ref:caclr", Cell(row, "id_caclr_bat"))];
    OutputColumnsDistinct();
    assert UniqueKeys(r);
    GetUnique(r, 1); GetUnique(r, 2);
    r
  }

  /**
   The address list has no column "", so the script as written converts
   nothing, whatever the rows: a header of exactly the columns it reads fails.
   */
  lemma AsWrittenFailsOnAddressList(df: Table)
    ensures ProcessAsWritten(InputColumns, df) == None
  {
    assert "" !in InputColumns;
  }

  /**
   Given a column "", the script as written copies it: a "Maison" in locality
   "Lux" with "x" under "" gets both a street and a place, so `StreetOrPlace`
   fails for the code as written.
   */
  lemma AsWrittenStreetAndPlace()
    ensures var row: Row := map["rue" := Some(Maison), "localite" := Some("Lux"), "" := Some("x")];
      && StreetAsWritten(row) == Some("x") && PlaceAsWritten(row) == Some("Lux")
      && Street(row) == Some("")
  {
  }
}

/**
 * Loading the yearly sheets of the workbook into one normalised table per year.
 *
 * The workbook is given as a map from sheet name to the table read from it, and
 * whether the file exists as a flag. Number parsing (`pd.to_numeric` on a text
 * cell) is the parameter `parse`, and rendering a number as text (`astype(str)`)
 * is the parameter `show`.
 */
module DataLoader {
  import opened Wrappers
  import opened Tables
  import opened Strings

  /** The indicator columns `_clean_numeric_cols` converts, in its own order. */
  const CleanCols: seq<string> := ["IAA", "IEG", "IPS", "IDA", "IPV", "IPP", "IAN", "INDE", "Defasagem"]

  /** The years the loader knows a sheet for. */
  type Year = y: int | 2022 <= y <= 2024 witness 2022

  datatype LoadError =
    | FileNotFound(path: string)
    /** `df['RA']` on a sheet without an `RA` column. */
    | KeyError(column: string)
    /** Renaming made two columns share an indicator name, so `pd.to_numeric` got a two-column selection. */
    | DuplicateColumn

  function SheetName(year: Year): string {
    if year == 2022 then "PEDE2022" else if year == 2023 then "PEDE2023" else "PEDE2024"
  }

  /** The year-specific aliases renamed to canonical names. */
  function Aliases(year: Year): (r: map<string, string>)
    ensures forall a | a in r :: a != "RA" && r[a] in CleanCols
  {
    if year == 2022 then
      map["INDE 22" := "INDE", "Defas" := "Defasagem",
          "IAA" := "IAA", "IEG" := "IEG", "IPS" := "IPS", "IDA" := "IDA", "IPV" := "IPV", "IAN" := "IAN"]
    else if year == 2023 then map["INDE 2023" := "INDE"]
    else map["INDE 2024" := "INDE"]
  }

  /** `pd.to_numeric(..., errors='coerce')` on one cell: text that does not parse becomes missing. */
  function CleanCell(c: Cell, parse: string -> Option<real>): (r: Cell)
    ensures !r.Text?
  {
    match c
    case Text(s) => (match parse(s) case Some(v) => Num(v) case None => Missing)
    case _ => c
  }

  function CleanCells(col: seq<Cell>, parse: string -> Option<real>): (r: seq<Cell>)
    ensures |r| == |col| && forall k | 0 <= k < |col| :: r[k] == CleanCell(col[k], parse)
  {
    seq(|col|, k requires 0 <= k < |col| => CleanCell(col[k], parse))
  }

  /** `_clean_numeric_cols` as a function of the table. */
  function Cleaned(t: Table, parse: string -> Option<real>): (r: Table)
    requires t.Valid()
    ensures r.Valid() && r.columns == t.columns && r.index == t.index
  {
    t.(cells := map c | c in t.cells :: if c in CleanCols then CleanCells(t.cells[c], parse) else t.cells[c])
  }

  /** After cleaning, the indicator columns hold no text and the other columns are untouched. */
  lemma CleanedCells(t: Table, parse: string -> Option<real>)
    requires t.Valid()
    ensures var r := Cleaned(t, parse);
      && (forall c | c in r.cells && c in CleanCols :: forall k | 0 <= k < |r.index| :: !r.cells[c][k].Text?)
      && (forall c | c in t.cells && c !in CleanCols :: r.cells[c] == t.cells[c])
  {
  }

  /** Cleaning an already cleaned table changes nothing. */
  lemma CleanedIdempotent(t: Table, parse: string -> Option<real>)
    requires t.Valid()
    ensures Cleaned(Cleaned(t, parse), parse) == Cleaned(t, parse)
  {
    var once := Cleaned(t, parse);
    var twice := Cleaned(once, parse);
    forall c | c in once.cells ensures twice.cells[c] == once.cells[c] {
      if c in CleanCols {
        assert forall k | 0 <= k < |once.cells[c]| :: CleanCell(once.cells[c][k], parse) == once.cells[c][k];
      }
    }
  }

  /** The table after the cleaning loop has handled the first `n` listed columns. */
  function CleanedUpTo(t: Table, parse: string -> Option<real>, n: nat): (r: Table)
    requires t.Valid() && n <= |CleanCols|
    ensures r.Valid() && r.columns == t.columns && r.index == t.index
  {
    t.(cells := map c | c in t.cells :: if c in CleanCols[..n] then CleanCells(t.cells[c], parse) else t.cells[c])
  }

  /** One turn of the cleaning loop overwrites the next listed column, if present. */
  lemma CleanStep(t: Table, parse: string -> Option<real>, i: nat)
    requires t.Valid() && i < |CleanCols|
    ensures var before := CleanedUpTo(t, parse, i);
      CleanedUpTo(t, parse, i + 1) ==
        if CleanCols[i] in before.cells then WithColumn(before, CleanCols[i], CleanCells(before.cells[CleanCols[i]], parse))
        else before
  {
    var col := CleanCols[i];
    assert CleanCols[..i + 1] == CleanCols[..i] + [col];
    assert col !in CleanCols[..i];
  }

  /**
   * `_clean_numeric_cols(df)`: overwrite each listed indicator column that is
   * present with its numeric conversion, one column at a time.
   */
  method CleanNumericCols(df: Frame, parse: string -> Option<real>)
    requires df.Valid()
    modifies df
    ensures df.Valid() && df.Value() == Cleaned(old(df.Value()), parse)
  {
    ghost var t := df.Value();
    assert CleanedUpTo(t, parse, 0) == t;
    for i := 0 to |CleanCols|
      invariant df.Valid() && df.Value() == CleanedUpTo(t, parse, i)
    {
      CleanStep(t, parse, i);
      var col := CleanCols[i];
      if col in df.cells {
        df.SetColumn(col, CleanCells(df.cells[col], parse));
      }
    }
    assert CleanCols[..|CleanCols|] == CleanCols;
  }

  /** `astype(str)` on one cell: text stays, a number is rendered by `show`, a missing value reads "nan". */
  function AsStr(c: Cell, show: real -> string): (r: string)
    ensures c.Text? ==> r == c.text
    ensures c.Missing? ==> r == "nan"
  {
    match c
    case Text(s) => s
    case Num(v) => show(v)
    case Missing => "nan"
  }

  /** `df['RA'].astype(str).str.strip()`. */
  function IdColumn(col: seq<Cell>, show: real -> string): (r: seq<Cell>)
    ensures |r| == |col|
    ensures forall k | 0 <= k < |col| :: r[k].Text? && IsStripped(r[k].text)
  {
    seq(|col|, k requires 0 <= k < |col| => Text(Strip(AsStr(col[k], show))))
  }

  /** `df['Ano'] = year`. */
  function YearColumn(n: nat, year: Year): (r: seq<Cell>)
    ensures |r| == n && forall k | 0 <= k < n :: r[k] == Num(year as real)
  {
    seq(n, _ => Num(year as real))
  }

  /**
   * One year's block of `load_data`: rename the aliases, clean the indicators,
   * strip `RA` and stamp `Ano`. A renaming that would give two columns one name
   * is reported as `DuplicateColumn`: pandas would rename, then fail in the
   * cleaning step, and the sheet is lost either way.
   */
  function NormaliseSheet(year: Year, raw: Table, parse: string -> Option<real>, show: real -> string): (r: Result<Table, LoadError>)
    requires raw.Valid()
    ensures r.Success? ==> r.value.Valid()
  {
    var m := Aliases(year);
    if !Distinct(RenamedNames(raw.columns, m)) then Failure(DuplicateColumn)
    else
      var t := Cleaned(Renamed(raw, m), parse);
      if "RA" !in t.cells then Failure(KeyError("RA"))
      else Success(WithColumn(WithColumn(t, "RA", IdColumn(t.cells["RA"], show)), "Ano", YearColumn(|t.index|, year)))
  }

  /** The year's normalised sheet, if the workbook has a sheet for it. */
  function SheetResult(year: Year, sheets: map<string, Table>, parse: string -> Option<real>, show: real -> string)
    : (r: Option<Result<Table, LoadError>>)
    requires forall name | name in sheets :: sheets[name].Valid()
  {
    if SheetName(year) in sheets then Some(NormaliseSheet(year, sheets[SheetName(year)], parse, show)) else None
  }

  /** `load_data(file_path)` as a function of the workbook. */
  function LoadSpec(path: string, fileExists: bool, sheets: map<string, Table>,
                    parse: string -> Option<real>, show: real -> string): (r: Result<map<int, Table>, LoadError>)
    requires forall name | name in sheets :: sheets[name].Valid()
    ensures !fileExists ==> r == Failure(FileNotFound(path))
  {
    if !fileExists then Failure(FileNotFound(path))
    else
      var r22 := Accumulate(Success(map[]), 2022, SheetResult(2022, sheets, parse, show));
      var r23 := Accumulate(r22, 2023, SheetResult(2023, sheets, parse, show));
      Accumulate(r23, 2024, SheetResult(2024, sheets, parse, show))
  }

  /** The frames hold exactly the tables of `spec`, year by year. */
  ghost predicate Mirrors(data: map<int, Frame>, spec: map<int, Table>)
    reads set y | y in data :: data[y]
  {
    && data.Keys == spec.Keys
    && forall y | y in data :: data[y].Valid() && data[y].Value() == spec[y]
  }

  /** One year's block of `load_data`, on a fresh frame read from the sheet. */
  method LoadYear(year: Year, raw: Table, parse: string -> Option<real>, show: real -> string)
    returns (r: Result<Frame, LoadError>)
    requires raw.Valid()
    ensures r.Failure? ==> NormaliseSheet(year, raw, parse, show) == Failure(r.error)
    ensures r.Success? ==> fresh(r.value) && r.value.Valid() && NormaliseSheet(year, raw, parse, show) == Success(r.value.Value())
  {
    var df := new Frame(raw);
    var m := Aliases(year);
    if !Distinct(RenamedNames(df.columns, m)) {
      return Failure(DuplicateColumn);
    }
    df.Rename(m);
    CleanNumericCols(df, parse);
    if "RA" !in df.cells {
      return Failure(KeyError("RA"));
    }
    df.SetColumn("RA", IdColumn(df.cells["RA"], show));
    df.SetColumn("Ano", YearColumn(|df.index|, year));
    return Success(df);
  }

  /** The frames are pairwise distinct objects. */
  ghost predicate Unaliased(data: map<int, Frame>) {
    forall y, z | y in data && z in data && y != z :: data[y] != data[z]
  }

  /** Adding a frame that is none of the others keeps the year map faithful and unaliased. */
  lemma AddFrame(data: map<int, Frame>, acc: map<int, Table>, year: int, frame: Frame)
    requires Mirrors(data, acc) && Unaliased(data) && frame.Valid()
    requires forall y | y in data :: data[y] != frame
    ensures Mirrors(data[year := frame], acc[year := frame.Value()]) && Unaliased(data[year := frame])
  {
  }

  /** One `if '<sheet>' in xls.sheet_names:` block of `load_data`. */
  method LoadBlock(data: map<int, Frame>, ghost acc: map<int, Table>, year: Year, sheets: map<string, Table>,
                   parse: string -> Option<real>, show: real -> string)
    returns (r: Result<map<int, Frame>, LoadError>)
    requires forall name | name in sheets :: sheets[name].Valid()
    requires Mirrors(data, acc) && Unaliased(data) && year !in data
    ensures r.Failure? <==> Accumulate(Success(acc), year, SheetResult(year, sheets, parse, show)).Failure?
    ensures r.Failure? ==> r.error == Accumulate(Success(acc), year, SheetResult(year, sheets, parse, show)).error
    ensures r.Success? ==> Mirrors(r.value, Accumulate(Success(acc), year, SheetResult(year, sheets, parse, show)).value) && Unaliased(r.value)
    ensures r.Success? ==> forall y | y in data :: y in r.value && r.value[y] == data[y]
    ensures r.Success? ==> forall y | y in r.value && y !in data :: y == year && fresh(r.value[y])
  {
    if SheetName(year) !in sheets {
      assert Accumulate(Success(acc), year, SheetResult(year, sheets, parse, show)) == Success(acc);
      return Success(data);
    }
    var df := LoadYear(year, sheets[SheetName(year)], parse, show);
    if df.Failure? {
      assert Accumulate(Success(acc), year, SheetResult(year, sheets, parse, show)) == Failure(df.error);
      return Failure(df.error);
    }
    var frame := df.value;
    assert Accumulate(Success(acc), year, SheetResult(year, sheets, parse, show)) == Success(acc[year := frame.Value()]);
    AddFrame(data, acc, year, frame);
    r := Success(data[year := frame]);
  }

  /**
   * `load_data(file_path)`: fail before reading if the file is missing, then fill
   * the year map with one fresh, normalised frame per sheet present.
   */
  method LoadData(path: string, fileExists: bool, sheets: map<string, Table>,
                  parse: string -> Option<real>, show: real -> string)
    returns (r: Result<map<int, Frame>, LoadError>)
    requires forall name | name in sheets :: sheets[name].Valid()
    ensures !fileExists ==> r == Failure(FileNotFound(path))
    ensures r.Failure? <==> LoadSpec(path, fileExists, sheets, parse, show).Failure?
    ensures r.Failure? ==> r.error == LoadSpec(path, fileExists, sheets, parse, show).error
    ensures r.Success? ==> Mirrors(r.value, LoadSpec(path, fileExists, sheets, parse, show).value)
    ensures r.Success? ==> Unaliased(r.value) && forall y | y in r.value :: fresh(r.value[y])
  {
    if !fileExists {
      return Failure(FileNotFound(path));
    }
    var r22 := LoadBlock(map[], map[], 2022, sheets, parse, show);
    if r22.Failure? {
      return r22;
    }
    ghost var s22 := Accumulate(Success(map[]), 2022, SheetResult(2022, sheets, parse, show));
    var r23 := LoadBlock(r22.value, s22.value, 2023, sheets, parse, show);
    if r23.Failure? {
      return r23;
    }
    ghost var s23 := Accumulate(s22, 2023, SheetResult(2023, sheets, parse, show));
    r := LoadBlock(r23.value, s23.value, 2024, sheets, parse, show);
  }

  /** `RA` and `Ano` are not among the cleaned indicators. */
  lemma IdAndYearNotCleaned()
    ensures "RA" !in CleanCols && "Ano" !in CleanCols
  {
  }

  /** No alias renames `RA`, and none renames another column to `RA`. */
  lemma {:induction false} AliasesKeepId(year: Year, c: string)
    ensures NewName(Aliases(year), c) == "RA" <==> c == "RA"
  {
  }

  /**
   * When one year's normalisation fails: with `DuplicateColumn` exactly when
   * renaming would give two columns one name, otherwise with a `KeyError`
   * exactly when the sheet has no `RA`.
   */
  lemma {:induction false} NormaliseOutcome(year: Year, raw: Table, parse: string -> Option<real>, show: real -> string)
    requires raw.Valid()
    ensures var r := NormaliseSheet(year, raw, parse, show);
      && (r == Failure(DuplicateColumn) <==> !Distinct(RenamedNames(raw.columns, Aliases(year))))
      && (r == Failure(KeyError("RA")) <==> Distinct(RenamedNames(raw.columns, Aliases(year))) && "RA" !in raw.cells)
      && (r.Failure? ==> r == Failure(DuplicateColumn) || r == Failure(KeyError("RA")))
  {
    var m := Aliases(year);
    if Distinct(RenamedNames(raw.columns, m)) {
      var renamed := Renamed(raw, m);
      AliasesKeepId(year, "RA");
      if "RA" !in raw.cells {
        forall c | c in raw.cells ensures NewName(m, c) != "RA" {
          AliasesKeepId(year, c);
        }
        assert "RA" !in renamed.cells;
      }
    }
  }

  /**
   * A normalised sheet keeps the sheet's rows and index, and its columns are the
   * renamed ones in place, with `Ano` appended unless it was already there. Every
   * column other than `RA` and `Ano` holds the sheet's cells under its new name,
   * converted to numbers when it is one of the listed indicators.
   */
  lemma {:induction false} NormalisedColumns(year: Year, raw: Table, parse: string -> Option<real>, show: real -> string)
    requires raw.Valid()
    requires NormaliseSheet(year, raw, parse, show).Success?
    ensures var t := NormaliseSheet(year, raw, parse, show).value;
      var names := RenamedNames(raw.columns, Aliases(year));
      && t.index == raw.index
      && t.columns == (if "Ano" in names then names else names + ["Ano"])
      && forall c | c in raw.cells && NewName(Aliases(year), c) != "RA" && NewName(Aliases(year), c) != "Ano" ::
           var n := NewName(Aliases(year), c);
           n in t.cells && t.cells[n] == if n in CleanCols then CleanCells(raw.cells[c], parse) else raw.cells[c]
  {
    var m := Aliases(year);
    var renamed := Renamed(raw, m);
    var cleaned := Cleaned(renamed, parse);
    var t := NormaliseSheet(year, raw, parse, show).value;
    assert "RA" in cleaned.cells;
    assert t == WithColumn(WithColumn(cleaned, "RA", IdColumn(cleaned.cells["RA"], show)), "Ano", YearColumn(|cleaned.index|, year));
    assert "RA" in RenamedNames(raw.columns, m);
    forall c | c in raw.cells && NewName(m, c) != "RA" && NewName(m, c) != "Ano"
      ensures NewName(m, c) in t.cells
      ensures t.cells[NewName(m, c)] == if NewName(m, c) in CleanCols then CleanCells(raw.cells[c], parse) else raw.cells[c]
    {
      RenamedCells(raw, m, c);
    }
  }

  /**
   * In a normalised sheet, `RA` holds the stripped text of each of the sheet's
   * ids, and `Ano` holds the year in every row.
   */
  lemma {:induction false} NormalisedIdAndYear(year: Year, raw: Table, parse: string -> Option<real>, show: real -> string)
    requires raw.Valid()
    requires NormaliseSheet(year, raw, parse, show).Success?
    ensures var t := NormaliseSheet(year, raw, parse, show).value;
      && "RA" in raw.cells && "RA" in t.cells && "Ano" in t.cells && |t.index| == |raw.index|
      && (forall k | 0 <= k < |t.index| :: t.cells["RA"][k] == Text(Strip(AsStr(raw.cells["RA"][k], show))))
      && (forall k | 0 <= k < |t.index| :: t.cells["Ano"][k] == Num(year as real))
  {
    var m := Aliases(year);
    var renamed := Renamed(raw, m);
    var cleaned := Cleaned(renamed, parse);
    NormaliseOutcome(year, raw, parse, show);
    AliasesKeepId(year, "RA");
    IdAndYearNotCleaned();
    RenamedCells(raw, m, "RA");
    CleanedCells(renamed, parse);
  }

  /** Process one year's sheet result, if the workbook has the sheet; an error ends the load. */
  function Accumulate(acc: Result<map<int, Table>, LoadError>, year: int, sheet: Option<Result<Table, LoadError>>)
    : Result<map<int, Table>, LoadError>
  {
    match acc
    case Failure(_) => acc
    case Success(data) =>
      match sheet
      case None => acc
      case Some(Failure(e)) => Failure(e)
      case Some(Success(t)) => Success(data[year := t])
  }

  /**
   * Three years processed in order succeed exactly when no present sheet fails;
   * the first failure is the one reported; and on success the keys are the years
   * whose sheet is present, each holding its own table.
   */
  lemma {:induction false} AccumulateThree(a: Option<Result<Table, LoadError>>, b: Option<Result<Table, LoadError>>,
                                           c: Option<Result<Table, LoadError>>)
    ensures var r := Accumulate(Accumulate(Accumulate(Success(map[]), 2022, a), 2023, b), 2024, c);
      && (r.Success? <==> !(a.Some? && a.value.Failure?) && !(b.Some? && b.value.Failure?) && !(c.Some? && c.value.Failure?))
      && (r.Failure? ==> r.error == (if a.Some? && a.value.Failure? then a.value.error
                                     else if b.Some? && b.value.Failure? then b.value.error
                                     else c.value.error))
      && (r.Success? ==>
            && (forall y :: y in r.value <==> (y == 2022 && a.Some?) || (y == 2023 && b.Some?) || (y == 2024 && c.Some?))
            && (a.Some? ==> r.value[2022] == a.value.value)
            && (b.Some? ==> r.value[2023] == b.value.value)
            && (c.Some? ==> r.value[2024] == c.value.value))
  {
  }

  /** The year's sheet is absent, or present and normalises without error. */
  predicate SheetLoads(year: Year, sheets: map<string, Table>, parse: string -> Option<real>, show: real -> string)
    requires forall name | name in sheets :: sheets[name].Valid()
  {
    SheetResult(year, sheets, parse, show).None? || SheetResult(year, sheets, parse, show).value.Success?
  }

  /**
   * Whether `load_data` fails, and with what. A missing file fails with
   * `FileNotFound`, and nothing else does. Otherwise the load fails exactly when
   * a present sheet fails to normalise.
   */
  lemma {:induction false} LoadSpecOutcome(path: string, fileExists: bool, sheets: map<string, Table>,
                                           parse: string -> Option<real>, show: real -> string)
    requires forall name | name in sheets :: sheets[name].Valid()
    ensures var r := LoadSpec(path, fileExists, sheets, parse, show);
      && (!fileExists ==> r == Failure(FileNotFound(path)))
      && (r.Failure? && r.error.FileNotFound? ==> !fileExists)
      && (fileExists ==>
            (r.Success? <==> (SheetLoads(2022, sheets, parse, show) && SheetLoads(2023, sheets, parse, show)
                              && SheetLoads(2024, sheets, parse, show))))
  {
    if fileExists {
      var a := SheetResult(2022, sheets, parse, show);
      var b := SheetResult(2023, sheets, parse, show);
      var c := SheetResult(2024, sheets, parse, show);
      AccumulateThree(a, b, c);
      if a.Some? { NormaliseOutcome(2022, sheets[SheetName(2022)], parse, show); }
      if b.Some? { NormaliseOutcome(2023, sheets[SheetName(2023)], parse, show); }
      if c.Some? { NormaliseOutcome(2024, sheets[SheetName(2024)], parse, show); }
      assert LoadSpec(path, fileExists, sheets, parse, show) == Accumulate(Accumulate(Accumulate(Success(map[]), 2022, a), 2023, b), 2024, c);
    }
  }

  /**
   * What a successful `load_data` holds: the keys are exactly the years whose
   * sheet is in the workbook, each holding that sheet, normalised.
   */
  lemma {:induction false} LoadSpecTables(path: string, fileExists: bool, sheets: map<string, Table>,
                                          parse: string -> Option<real>, show: real -> string)
    requires forall name | name in sheets :: sheets[name].Valid()
    ensures var r := LoadSpec(path, fileExists, sheets, parse, show);
      r.Success? ==>
        && (2022 in r.value <==> SheetName(2022) in sheets)
        && (2023 in r.value <==> SheetName(2023) in sheets)
        && (2024 in r.value <==> SheetName(2024) in sheets)
        && (forall y :: y in r.value ==> 2022 <= y <= 2024)
        && (forall y: Year | y in r.value :: Some(Success(r.value[y])) == SheetResult(y, sheets, parse, show))
  {
    if fileExists {
      var a := SheetResult(2022, sheets, parse, show);
      var b := SheetResult(2023, sheets, parse, show);
      var c := SheetResult(2024, sheets, parse, show);
      AccumulateThree(a, b, c);
      var r := LoadSpec(path, fileExists, sheets, parse, show);
      assert r == Accumulate(Accumulate(Accumulate(Success(map[]), 2022, a), 2023, b), 2024, c);
      if r.Success? {
        var keys := r.value.Keys;
        forall y | y in keys ensures 2022 <= y <= 2024 {
          assert (y == 2022 && a.Some?) || (y == 2023 && b.Some?) || (y == 2024 && c.Some?);
        }
        forall y: Year | y in r.value ensures Some(Success(r.value[y])) == SheetResult(y, sheets, parse, show) {
          if y == 2022 { assert a.Some?; } else if y == 2023 { assert b.Some?; } else { assert c.Some?; }
        }
      }
    }
  }
}

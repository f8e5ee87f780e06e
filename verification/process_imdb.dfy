/**
 * The data-preparation script (data/process_imdb.py): it reads IMDb's
 * `title.basics.tsv` row by row, keeps the non-adult titles from 2000 onward
 * that have a year, a runtime and a title, cleans six of their fields and
 * writes them, after a header, to the CSV file node1 is loaded from, stopping
 * at 40000 data rows.
 */
module ImdbExtract {
  import opened Wrappers
  import opened PythonText

  /** One input row as `csv.DictReader` yields it. A field is `None` when the
      line is shorter than the header. */
  datatype Row = Row(tconst: Option<string>, titleType: Option<string>, primaryTitle: Option<string>,
                     isAdult: Option<string>, startYear: Option<string>, runtimeMinutes: Option<string>,
                     genres: Option<string>)

  /** IMDb's marker for a missing value, the two characters `\N`. */
  const MISSING: string := "\\N"

  /** The output columns, in order. */
  const HEADER: seq<string> := ["tconst", "title_type", "primary_title", "start_year", "runtime_minutes", "genres"]

  /** The largest number of data rows written. */
  const MAX_ROWS: nat := 40000

  /** The year a row's filter compares with 2000: `int(row['startYear'])`,
      `None` where that call raises. */
  function YearOf(row: Row): (y: Option<int>)
    ensures y.Some? ==> row.startYear.Some? && row.startYear != Some(MISSING)
  {
    if row.startYear.None? then None else ParseInt(row.startYear.value)
  }

  /** The part of the filter evaluated before the year is parsed. */
  predicate Candidate(row: Row)
  {
    && row.isAdult == Some("0")
    && row.startYear != Some(MISSING)
    && row.runtimeMinutes != Some(MISSING)
    && row.primaryTitle.Some? && row.primaryTitle.value != ""
  }

  /** The whole filter, apart from the row cap. */
  predicate Selected(row: Row)
  {
    Candidate(row) && YearOf(row).Some? && YearOf(row).value >= 2000
  }

  /** The cleaned genres: `\N` becomes `Unknown`, commas become semicolons,
      carriage returns, newlines and NULs are dropped, and the ends are
      stripped. The result can hold none of the four characters that would
      break a CSV row. */
  function CleanGenres(g: string): (r: string)
    ensures ',' !in r && '\r' !in r && '\n' !in r && '\0' !in r
    ensures Stripped(r)
  {
    var a := Replace(g, MISSING, "Unknown");
    var b := Replace(a, ",", ";");
    var c := Replace(b, "\r", "");
    var d := Replace(c, "\n", "");
    var e := Replace(d, "\0", "");
    ReplaceRemoves(a, ',', ";");
    ReplaceAbsentChar(b, "\r", "", ',');
    ReplaceAbsentChar(c, "\n", "", ',');
    ReplaceAbsentChar(d, "\0", "", ',');
    StripAbsent(e, ',');
    ReplaceRemoves(b, '\r', "");
    ReplaceAbsentChar(c, "\n", "", '\r');
    ReplaceAbsentChar(d, "\0", "", '\r');
    StripAbsent(e, '\r');
    ReplaceRemoves(c, '\n', "");
    ReplaceAbsentChar(d, "\0", "", '\n');
    StripAbsent(e, '\n');
    ReplaceRemoves(d, '\0', "");
    StripAbsent(e, '\0');
    Strip(e)
  }

  /** A title without carriage returns, newlines or NULs and with no
      whitespace at its ends is kept as it is. */
  lemma CleanTitleKeeps(t: string)
    requires '\r' !in t && '\n' !in t && '\0' !in t && Stripped(t)
    ensures CleanTitle(t) == t
  {
    ReplaceAbsent(t, "\r", "");
    ReplaceAbsent(t, "\n", " ");
    ReplaceAbsent(t, "\0", "");
    StripKeeps(t);
  }

  /** On genres without a backslash, line break or NUL and with no
      whitespace at their ends, the cleaning turns each comma into a
      semicolon and keeps every other character in place. */
  lemma CleanGenresMaps(g: string)
    requires '\\' !in g && '\r' !in g && '\n' !in g && '\0' !in g && Stripped(g)
    ensures |CleanGenres(g)| == |g|
    ensures forall k | 0 <= k < |g| :: CleanGenres(g)[k] == if g[k] == ',' then ';' else g[k]
  {
    ReplaceAbsent(g, MISSING, "Unknown");
    ReplaceChar(g, ',', ';');
    var b := Replace(g, ",", ";");
    assert forall k | 0 <= k < |b| :: b[k] == g[k] || b[k] == ';';
    assert '\r' !in b && '\n' !in b && '\0' !in b;
    ReplaceAbsent(b, "\r", "");
    ReplaceAbsent(b, "\n", "");
    ReplaceAbsent(b, "\0", "");
    assert Stripped(b);
    StripKeeps(b);
  }

  /** On a title without carriage returns or NULs and with no whitespace at
      its ends, the cleaning turns each newline into a space and keeps every
      other character in place. */
  lemma CleanTitleMaps(t: string)
    requires '\r' !in t && '\0' !in t && Stripped(t)
    ensures |CleanTitle(t)| == |t|
    ensures forall k | 0 <= k < |t| :: CleanTitle(t)[k] == if t[k] == '\n' then ' ' else t[k]
  {
    ReplaceAbsent(t, "\r", "");
    ReplaceChar(t, '\n', ' ');
    var b := Replace(t, "\n", " ");
    assert forall k | 0 <= k < |b| :: b[k] == t[k] || b[k] == ' ';
    assert '\0' !in b;
    ReplaceAbsent(b, "\0", "");
    assert Stripped(b);
    StripKeeps(b);
  }

  /** A genres field that is the missing marker becomes `Unknown`. */
  lemma GenresMissing(g: string)
    requires g == MISSING
    ensures CleanGenres(g) == "Unknown"
  {
    GenresMissingAs(g, "Unknown");
  }

  /** `GenresMissing` with the expected text passed in rather than written
      as a literal, which keeps the verifier from evaluating `Replace` and
      `Strip` on the literal character by character. */
  lemma GenresMissingAs(g: string, unknown: string)
    requires g == MISSING && unknown == "Unknown"
    ensures CleanGenres(g) == unknown
  {
    ReplaceWhole(g, unknown);
    assert ',' !in unknown && '\r' !in unknown && '\n' !in unknown && '\0' !in unknown;
    GenresSeparatorsAbsent(unknown);
    assert Stripped(unknown);
    StripKeeps(unknown);
  }

  /** Text with none of the four characters the genres cleaning rewrites
      after the missing marker comes through those four rewrites unchanged. */
  lemma GenresSeparatorsAbsent(u: string)
    requires ',' !in u && '\r' !in u && '\n' !in u && '\0' !in u
    ensures Replace(Replace(Replace(Replace(u, ",", ";"), "\r", ""), "\n", ""), "\0", "") == u
  {
    ReplaceAbsent(u, ",", ";");
    ReplaceAbsent(u, "\r", "");
    ReplaceAbsent(u, "\n", "");
    ReplaceAbsent(u, "\0", "");
  }

  /** Genres that are already clean, and hold no backslash that could start
      a missing marker, are kept as they are. */
  lemma CleanGenresKeeps(g: string)
    requires '\\' !in g && ',' !in g && '\r' !in g && '\n' !in g && '\0' !in g && Stripped(g)
    ensures CleanGenres(g) == g
  {
    ReplaceAbsent(g, MISSING, "Unknown");
    ReplaceAbsent(g, ",", ";");
    ReplaceAbsent(g, "\r", "");
    ReplaceAbsent(g, "\n", "");
    ReplaceAbsent(g, "\0", "");
    StripKeeps(g);
  }

  /** The cleaned title: carriage returns and NULs dropped, newlines turned
      into spaces, the ends stripped. */
  function CleanTitle(t: string): (r: string)
    ensures '\r' !in r && '\n' !in r && '\0' !in r
    ensures Stripped(r)
  {
    var a := Replace(t, "\r", "");
    var b := Replace(a, "\n", " ");
    var c := Replace(b, "\0", "");
    ReplaceRemoves(t, '\r', "");
    ReplaceAbsentChar(a, "\n", " ", '\r');
    ReplaceAbsentChar(b, "\0", "", '\r');
    StripAbsent(c, '\r');
    ReplaceRemoves(a, '\n', " ");
    ReplaceAbsentChar(b, "\0", "", '\n');
    StripAbsent(c, '\n');
    ReplaceRemoves(b, '\0', "");
    StripAbsent(c, '\0');
    Strip(c)
  }

  /** What the title cleaning makes of one character before the ends are
      stripped: carriage returns and NULs vanish, a newline becomes a space,
      anything else stays. */
  function TitleChar(x: char): (r: string)
    ensures |r| <= 1
  {
    if x == '\r' || x == '\0' then "" else if x == '\n' then " " else [x]
  }

  /** The title cleaning before stripping, one character at a time. */
  function TitleChars(t: string): (r: string)
    ensures |r| <= |t|
  {
    if t == [] then "" else TitleChar(t[0]) + TitleChars(t[1..])
  }

  /** What the genres cleaning makes of one character after the missing
      marker: a comma becomes a semicolon, carriage returns, newlines and
      NULs vanish, anything else stays. */
  function GenresChar(x: char): (r: string)
    ensures |r| <= 1
  {
    if x == ',' then ";" else if x == '\r' || x == '\n' || x == '\0' then "" else [x]
  }

  /** The genres cleaning after the missing marker and before stripping,
      one character at a time. */
  function GenresChars(g: string): (r: string)
    ensures |r| <= |g|
  {
    if g == [] then "" else GenresChar(g[0]) + GenresChars(g[1..])
  }

  /** The three chained replaces of the title cleaning act on each character
      on its own. */
  lemma {:induction false} TitleReplaces(t: string)
    ensures Replace(Replace(Replace(t, "\r", ""), "\n", " "), "\0", "") == TitleChars(t)
    decreases |t|
  {
    if t != [] {
      var x, s := t[0], t[1..];
      assert t == [x] + s;
      var a := Replace(s, "\r", "");
      var b := Replace(a, "\n", " ");
      ReplaceCharPiece([x], s, '\r', "");
      var p1 := if x == '\r' then "" else [x];
      ReplaceCharPiece(p1, a, '\n', " ");
      var p2 := if p1 == [] then [] else if p1[0] == '\n' then " " else p1;
      ReplaceCharPiece(p2, b, '\0', "");
      var p3 := if p2 == [] then [] else if p2[0] == '\0' then "" else p2;
      assert p3 == TitleChar(x);
      TitleReplaces(s);
    }
  }

  /** The four chained replaces of the genres cleaning after the missing
      marker act on each character on its own. */
  lemma {:induction false} GenresReplaces(u: string)
    ensures Replace(Replace(Replace(Replace(u, ",", ";"), "\r", ""), "\n", ""), "\0", "") == GenresChars(u)
    decreases |u|
  {
    if u != [] {
      var x, s := u[0], u[1..];
      assert u == [x] + s;
      var a := Replace(s, ",", ";");
      var b := Replace(a, "\r", "");
      var c := Replace(b, "\n", "");
      ReplaceCharPiece([x], s, ',', ";");
      var p1 := if x == ',' then ";" else [x];
      ReplaceCharPiece(p1, a, '\r', "");
      var p2 := if p1[0] == '\r' then "" else p1;
      ReplaceCharPiece(p2, b, '\n', "");
      var p3 := if p2 == [] then [] else if p2[0] == '\n' then "" else p2;
      ReplaceCharPiece(p3, c, '\0', "");
      var p4 := if p3 == [] then [] else if p3[0] == '\0' then "" else p3;
      assert p4 == GenresChar(x);
      GenresReplaces(s);
    }
  }

  /** The title cleaning is the per-character rewrite followed by `strip`:
      every character other than a carriage return or NUL reaches the
      output, in order, with newlines turned into spaces. */
  lemma CleanTitleByChar(t: string)
    ensures CleanTitle(t) == Strip(TitleChars(t))
  {
    TitleReplaces(t);
  }

  /** The genres cleaning is the missing-marker replace, then the
      per-character rewrite, then `strip`. */
  lemma CleanGenresByChar(g: string)
    ensures CleanGenres(g) == Strip(GenresChars(Replace(g, MISSING, "Unknown")))
  {
    GenresReplaces(Replace(g, MISSING, "Unknown"));
  }

  /** What the loop does with one row. */
  datatype Step = Skip | Emit(fields: seq<string>) | Crash

  /** The fields the cleaning reads are all present. */
  predicate Complete(row: Row)
  {
    && row.tconst.Some? && row.titleType.Some? && row.primaryTitle.Some?
    && row.startYear.Some? && row.runtimeMinutes.Some? && row.genres.Some?
  }

  /** The output row of a row: tconst, title type, title, year, runtime and
      genres, in the header's column order, each without whitespace at its
      ends, the title and genres cleaned. */
  function Cleaned(row: Row): (fields: seq<string>)
    requires Complete(row)
    ensures |fields| == 6 == |HEADER|
    ensures forall j | 0 <= j < |fields| :: Stripped(fields[j])
    ensures fields[0] == Strip(row.tconst.value) && fields[1] == Strip(row.titleType.value)
    ensures fields[2] == CleanTitle(row.primaryTitle.value) && fields[3] == Strip(row.startYear.value)
    ensures fields[4] == Strip(row.runtimeMinutes.value) && fields[5] == CleanGenres(row.genres.value)
    ensures '\r' !in fields[2] && '\n' !in fields[2] && '\0' !in fields[2]
    ensures ',' !in fields[5] && '\r' !in fields[5] && '\n' !in fields[5] && '\0' !in fields[5]
  {
    var tconst := Strip(row.tconst.value);
    var titleType := Strip(row.titleType.value);
    var title := CleanTitle(row.primaryTitle.value);
    var year := Strip(row.startYear.value);
    var runtime := Strip(row.runtimeMinutes.value);
    var genres := CleanGenres(row.genres.value);
    SixStripped(tconst, titleType, title, year, runtime, genres);
    [tconst, titleType, title, year, runtime, genres]
  }

  lemma SixStripped(a: string, b: string, c: string, d: string, e: string, f: string)
    requires Stripped(a) && Stripped(b) && Stripped(c) && Stripped(d) && Stripped(e) && Stripped(f)
    ensures forall j | 0 <= j < 6 :: Stripped([a, b, c, d, e, f][j])
  {
  }

  /** The cleaning step: a field still `None` here makes `.strip()` or
      `.replace` raise. */
  function CleanRow(row: Row): (s: Step)
    ensures s.Emit? <==> Complete(row)
    ensures s.Emit? ==> s.fields == Cleaned(row)
    ensures s != Skip
  {
    if Complete(row) then Emit(Cleaned(row)) else Crash
  }

  /** The loop body for one row when `count` rows have been written: the
      filter in its evaluation order (a year `int` cannot read raises before
      the cap is looked at), then the cleaning. */
  function Decide(row: Row, count: nat): (s: Step)
    ensures s.Emit? <==> Selected(row) && count < MAX_ROWS && CleanRow(row).Emit?
    ensures s.Emit? ==> s == CleanRow(row)
    ensures s.Crash? <==> Candidate(row) && (YearOf(row).None? ||
                          (YearOf(row).value >= 2000 && count < MAX_ROWS && CleanRow(row).Crash?))
  {
    if !Candidate(row) then Skip
    else if YearOf(row).None? then Crash
    else if YearOf(row).value < 2000 || count >= MAX_ROWS then Skip
    else CleanRow(row)
  }

  /** Where the script stands after some rows: the data rows written so far,
      and whether an exception has ended it. */
  datatype Progress = Progress(out: seq<seq<string>>, crashed: bool)

  /** The script's progress after reading `rows`; once it has crashed it
      reads nothing more. */
  function Scan(rows: seq<Row>): (p: Progress)
    ensures |p.out| <= MAX_ROWS
  {
    if rows == [] then Progress([], false)
    else
      var p := Scan(rows[..|rows| - 1]);
      if p.crashed then p
      else match Decide(rows[|rows| - 1], |p.out|)
        case Skip => p
        case Crash => Progress(p.out, true)
        case Emit(fields) => Progress(p.out + [fields], false)
  }

  /** The rows that pass the filter, in input order. */
  function SelectedRows(rows: seq<Row>): (s: seq<Row>)
    ensures |s| <= |rows|
  {
    if rows == [] then []
    else SelectedRows(rows[..|rows| - 1]) + (if Selected(rows[|rows| - 1]) then [rows[|rows| - 1]] else [])
  }

  /** Every selected row is an input row that passes the whole filter: not
      adult, a year other than `\N` that `int` reads as 2000 or later, a
      runtime other than `\N` and a non-empty title. */
  lemma {:induction false} SelectedRowsFiltered(rows: seq<Row>)
    ensures forall r | r in SelectedRows(rows) ::
      && r in rows
      && r.isAdult == Some("0") && r.startYear != Some(MISSING) && r.runtimeMinutes != Some(MISSING)
      && r.primaryTitle.Some? && r.primaryTitle.value != ""
      && YearOf(r).Some? && YearOf(r).value >= 2000
  {
    if rows != [] {
      var init := rows[..|rows| - 1];
      SelectedRowsFiltered(init);
      assert forall r | r in init :: r in rows;
    }
  }

  /** The rows written are the cleaned forms of the first selected rows, in
      order; without a crash they are the first `min(40000, selected)` of them. */
  lemma {:induction false} ScanWritesSelected(rows: seq<Row>)
    ensures |Scan(rows).out| <= |SelectedRows(rows)|
    ensures forall k | 0 <= k < |Scan(rows).out| :: CleanRow(SelectedRows(rows)[k]) == Emit(Scan(rows).out[k])
    ensures !Scan(rows).crashed ==>
      |Scan(rows).out| == if |SelectedRows(rows)| < MAX_ROWS then |SelectedRows(rows)| else MAX_ROWS
  {
    if rows != [] {
      var init := rows[..|rows| - 1];
      var row := rows[|rows| - 1];
      ScanWritesSelected(init);
      var p := Scan(init);
      var sel := SelectedRows(init);
      assert SelectedRows(rows) == sel + (if Selected(row) then [row] else []);
      assert forall k | 0 <= k < |sel| :: SelectedRows(rows)[k] == sel[k];
    }
  }

  /** Once the script has crashed, later rows change nothing. */
  lemma {:induction false} ScanCrashedStays(rows: seq<Row>, i: nat)
    requires i <= |rows| && Scan(rows[..i]).crashed
    ensures Scan(rows) == Scan(rows[..i])
    decreases |rows| - i
  {
    if i < |rows| {
      assert rows[..i + 1][..i] == rows[..i];
      ScanCrashedStays(rows, i + 1);
    } else {
      assert rows[..i] == rows;
    }
  }

  /** One more row, read before any exception: what `Decide` does with it
      is what the script does. */
  lemma ScanStep(rows: seq<Row>, i: nat)
    requires i < |rows| && !Scan(rows[..i]).crashed
    ensures Scan(rows[..i + 1]) ==
      match Decide(rows[i], |Scan(rows[..i]).out|)
      case Skip => Scan(rows[..i])
      case Crash => Progress(Scan(rows[..i]).out, true)
      case Emit(fields) => Progress(Scan(rows[..i]).out + [fields], false)
  {
    assert rows[..i + 1][..i] == rows[..i];
  }

  /** A row that cannot make the script raise: every field present, and a
      year `int` can read wherever the filter gets as far as reading it. */
  predicate WellFormed(row: Row)
  {
    && row.tconst.Some? && row.titleType.Some? && row.primaryTitle.Some? && row.isAdult.Some?
    && row.startYear.Some? && row.runtimeMinutes.Some? && row.genres.Some?
    && (Candidate(row) ==> YearOf(row).Some?)
  }

  /** Well-formed input never makes the script raise. */
  lemma {:induction false} ScanWellFormed(rows: seq<Row>)
    requires forall k | 0 <= k < |rows| :: WellFormed(rows[k])
    ensures !Scan(rows).crashed
  {
    if rows != [] {
      ScanWellFormed(rows[..|rows| - 1]);
    }
  }

  /** A data row as the CSV file should hold it: the six columns of the
      header, none with whitespace at its ends; a year `int` reads as 2000 or
      later; a title with no line break or NUL and genres with no comma
      either. */
  predicate CleanOutputRow(f: seq<string>)
  {
    && |f| == |HEADER|
    && (forall j | 0 <= j < |HEADER| :: Stripped(f[j]))
    && ParseInt(f[3]).Some? && ParseInt(f[3]).value >= 2000
    && '\r' !in f[2] && '\n' !in f[2] && '\0' !in f[2]
    && ',' !in f[5] && '\r' !in f[5] && '\n' !in f[5] && '\0' !in f[5]
  }

  /** A row the loop writes is clean. */
  lemma EmittedClean(row: Row, count: nat)
    requires Decide(row, count).Emit?
    ensures CleanOutputRow(Decide(row, count).fields)
  {
    ParseIntStrip(row.startYear.value);
  }

  /** Every row written is clean. */
  lemma {:induction false} ScanRowsClean(rows: seq<Row>)
    ensures forall k | 0 <= k < |Scan(rows).out| :: CleanOutputRow(Scan(rows).out[k])
  {
    if rows != [] {
      var init := rows[..|rows| - 1];
      var row := rows[|rows| - 1];
      ScanRowsClean(init);
      var p := Scan(init);
      if !p.crashed {
        var s := Decide(row, |p.out|);
        if s.Emit? {
          EmittedClean(row, |p.out|);
          assert Scan(rows).out == p.out + [s.fields];
        }
      }
    }
  }

  /** `process_imdb()`: writes the header, then runs the filter and the
      cleaning over every row, counting the rows written. `crashed` reports
      an exception, after which the rows already written stay in the file. */
  method ProcessImdb(rows: seq<Row>) returns (written: seq<seq<string>>, count: nat, crashed: bool)
    ensures written == [HEADER] + Scan(rows).out
    ensures count == |Scan(rows).out| && count <= MAX_ROWS
    ensures crashed == Scan(rows).crashed
  {
    written := [HEADER];
    count := 0;
    var i := 0;
    while i < |rows|
      invariant 0 <= i <= |rows|
      invariant written == [HEADER] + Scan(rows[..i]).out
      invariant count == |Scan(rows[..i]).out|
      invariant !Scan(rows[..i]).crashed
    {
      ScanStep(rows, i);
      var step := Decide(rows[i], count);
      match step {
        case Skip =>
        case Crash =>
          ScanCrashedStays(rows, i + 1);
          return written, count, true;
        case Emit(fields) =>
          written := written + [fields];
          count := count + 1;
      }
      i := i + 1;
    }
    assert rows[..i] == rows;
    crashed := false;
  }
}

/** The text form of a sparse matrix: the reader of load_from_file, taken
    over the lines of a file (opening and reading the file are left out),
    and the ordered listing that display() prints.

        rows=<int>
        cols=<int>
        (<row>,<col>,<value>)
        ...

    The first two lines are read positionally: whatever stands before the
    first '=' is ignored, so the key names are not checked. */
module MatrixFile {
  import opened Outcomes
  import opened SparseMaps
  import opened Text

  /** What the reader produces: the entries and the two dimensions. */
  datatype Loaded = Loaded(data: Entries, rows: int, cols: int)

  /** A dimension line: int() of the piece between the first and the
      second '=' of the stripped line; None when there is no '=' or that
      piece is not an integer. */
  function ParseDimension(line: string): Option<int>
  {
    var parts := Split(Strip(line), '=');
    if |parts| < 2 then None else ParseInt(parts[1])
  }

  /** How the reader sees one line after the first two. */
  datatype LineKind = Blank | Triple(row: int, col: int, value: int) | Malformed

  /** A line is blank when nothing but white space is on it; otherwise
      it must be "(" r "," c "," v ")" once stripped, with three pieces
      that int() accepts. */
  function ParseEntryLine(line: string): LineKind
  {
    var t := Strip(line);
    if t == [] then Blank
    else if !(t[0] == '(' && t[|t| - 1] == ')') then Malformed
    else
      var parts := Split(t[1..|t| - 1], ',');
      if |parts| != 3 then Malformed
      else
        match (ParseInt(parts[0]), ParseInt(parts[1]), ParseInt(parts[2]))
        case (Some(r), Some(c), Some(v)) => Triple(r, c, v)
        case _ => Malformed
  }

  /** How the reader sees each line of a run, in order. */
  function Classify(ls: seq<string>): seq<LineKind>
  {
    seq(|ls|, i requires 0 <= i < |ls| => ParseEntryLine(ls[i]))
  }

  /** What the loop of load_from_file accumulates from the readings of
      the lines after the first two: a blank line is skipped, a triple
      stores its value (zero included) and overwrites an earlier triple at
      the same coordinates, and one malformed line makes the whole read
      fail. */
  function Collect(kinds: seq<LineKind>): Result<Entries>
    decreases |kinds|
  {
    if kinds == [] then Ok(map[])
    else
      match Collect(kinds[..|kinds| - 1])
      case Err(e) => Err(e)
      case Ok(m) =>
        match kinds[|kinds| - 1]
        case Blank => Ok(m)
        case Triple(r, c, v) => Ok(m[(r, c) := v])
        case Malformed => Err(FormatError)
  }

  /** The whole reader: two dimension lines, then the entry lines. */
  function ParseMatrix(lines: seq<string>): Result<Loaded>
  {
    if |lines| < 2 then Err(FormatError)
    else
      match (ParseDimension(lines[0]), ParseDimension(lines[1]))
      case (Some(rows), Some(cols)) =>
        (match Collect(Classify(lines[2..]))
         case Ok(m) => Ok(Loaded(m, rows, cols))
         case Err(e) => Err(e))
      case _ => Err(FormatError)
  }

  /** Every failure of the entry lines is a format error. */
  lemma {:induction false} CollectErrorIsFormat(kinds: seq<LineKind>)
    ensures Collect(kinds).Err? ==> Collect(kinds).error == FormatError
    decreases |kinds|
  {
    if kinds != [] {
      CollectErrorIsFormat(kinds[..|kinds| - 1]);
    }
  }

  /** The entry lines fail exactly when one of them is malformed. */
  lemma {:induction false} CollectFailIff(kinds: seq<LineKind>)
    ensures Collect(kinds).Err? <==> exists i | 0 <= i < |kinds| :: kinds[i].Malformed?
    decreases |kinds|
  {
    if kinds != [] {
      var n := |kinds| - 1;
      var init := kinds[..n];
      CollectFailIff(init);
      if exists i | 0 <= i < |kinds| :: kinds[i].Malformed? {
        var i :| 0 <= i < |kinds| && kinds[i].Malformed?;
        if i < n {
          assert init[i].Malformed?;
        }
      }
      if exists i | 0 <= i < |init| :: init[i].Malformed? {
        var i :| 0 <= i < |init| && init[i].Malformed?;
        assert kinds[i].Malformed?;
      }
    }
  }

  /** The reader fails exactly when there are fewer than two lines, a
      dimension line does not read, or a later line is malformed; the
      failure is always a format error. */
  lemma ParseMatrixFailIff(lines: seq<string>)
    ensures ParseMatrix(lines).Err? <==>
      || |lines| < 2
      || ParseDimension(lines[0]).None?
      || ParseDimension(lines[1]).None?
      || exists i | 2 <= i < |lines| :: ParseEntryLine(lines[i]).Malformed?
    ensures ParseMatrix(lines).Err? ==> ParseMatrix(lines).error == FormatError
  {
    if |lines| >= 2 {
      var kinds := Classify(lines[2..]);
      CollectFailIff(kinds);
      CollectErrorIsFormat(kinds);
      if exists i | 2 <= i < |lines| :: ParseEntryLine(lines[i]).Malformed? {
        var i :| 2 <= i < |lines| && ParseEntryLine(lines[i]).Malformed?;
        assert kinds[i - 2].Malformed?;
      }
      if exists i | 0 <= i < |kinds| :: kinds[i].Malformed? {
        var i :| 0 <= i < |kinds| && kinds[i].Malformed?;
        assert lines[2..][i] == lines[i + 2];
      }
    }
  }

  /** Reading i of the run is a triple at coordinate k. */
  predicate WritesAt(kinds: seq<LineKind>, i: int, k: Coord)
    requires 0 <= i < |kinds|
  {
    kinds[i].Triple? && (kinds[i].row, kinds[i].col) == k
  }

  /** After a successful read, each stored coordinate comes from some
      triple, and its value is that of the LAST triple at that coordinate,
      whatever the value (zero included). */
  lemma {:induction false} CollectLastWins(kinds: seq<LineKind>, m: Entries)
    requires Collect(kinds) == Ok(m)
    ensures forall k | k in m :: exists i | 0 <= i < |kinds| :: WritesAt(kinds, i, k)
    ensures forall i | 0 <= i < |kinds| && kinds[i].Triple? ::
      (forall j | i < j < |kinds| :: !WritesAt(kinds, j, (kinds[i].row, kinds[i].col))) ==>
        (kinds[i].row, kinds[i].col) in m && m[(kinds[i].row, kinds[i].col)] == kinds[i].value
    decreases |kinds|
  {
    if kinds != [] {
      var n := |kinds| - 1;
      var init := kinds[..n];
      var m0 := Collect(init).value;
      CollectLastWins(init, m0);
      forall k | k in m ensures exists i | 0 <= i < |kinds| :: WritesAt(kinds, i, k) {
        if !WritesAt(kinds, n, k) {
          assert k in m0;
          var i :| 0 <= i < |init| && WritesAt(init, i, k);
          assert WritesAt(kinds, i, k);
        }
      }
      forall i | 0 <= i < |kinds| && kinds[i].Triple?
        ensures (forall j | i < j < |kinds| :: !WritesAt(kinds, j, (kinds[i].row, kinds[i].col))) ==>
          (kinds[i].row, kinds[i].col) in m && m[(kinds[i].row, kinds[i].col)] == kinds[i].value
      {
        var k := (kinds[i].row, kinds[i].col);
        if (forall j | i < j < |kinds| :: !WritesAt(kinds, j, k)) && i < n {
          assert init[i] == kinds[i];
          forall j | i < j < |init| ensures !WritesAt(init, j, k) {
            assert !WritesAt(kinds, j, k);
          }
          assert !WritesAt(kinds, n, k);
        }
      }
    }
  }

  /** strip() treats the ASCII separators U+001C .. U+001F as white
      space but int() does not, so one of them right after the "=" of a
      dimension line makes the file unreadable. */
  lemma SeparatorInDimensionFails()
    ensures ParseDimension("rows=\U{1F}2") == None
  {
    var line := "rows=\U{1F}2";
    StripTrimmed(line);
    assert line == "rows" + ['='] + "\U{1F}2";
    SplitTwo("rows", "\U{1F}2", '=');
    assert IntTrim("\U{1F}2") == "\U{1F}2";
  }

  /** The same separator right after the "(" of an entry line makes that
      line malformed. */
  lemma SeparatorInEntryFails()
    ensures ParseEntryLine("(\U{1C}1,2,3)") == Malformed
  {
    var line := "(\U{1C}1,2,3)";
    StripTrimmed(line);
    assert line[1..|line| - 1] == "\U{1C}1" + [','] + "2" + [','] + "3";
    SplitThree("\U{1C}1", "2", "3", ',');
    assert IntTrim("\U{1C}1") == "\U{1C}1";
  }

  /** One more reading that is not malformed extends the entries read so
      far. */
  lemma CollectStep(kinds: seq<LineKind>, i: int, m: Entries)
    requires 0 <= i < |kinds| && !kinds[i].Malformed?
    requires Collect(kinds[..i]) == Ok(m)
    ensures Collect(kinds[..i + 1]) == Ok(if kinds[i].Triple? then m[(kinds[i].row, kinds[i].col) := kinds[i].value] else m)
  {
    assert kinds[..i + 1][..i] == kinds[..i];
  }

  /** A malformed reading makes the whole run fail with a format error. */
  lemma CollectStopsAt(kinds: seq<LineKind>, i: int)
    requires 0 <= i < |kinds| && kinds[i].Malformed?
    ensures Collect(kinds) == Err(FormatError)
  {
    CollectFailIff(kinds);
    CollectErrorIsFormat(kinds);
  }

  /** Once both dimension lines read, the reader's outcome is that of the
      entry lines. */
  lemma ReadOutcome(lines: seq<string>, rows: int, cols: int)
    requires |lines| >= 2
    requires ParseDimension(lines[0]) == Some(rows) && ParseDimension(lines[1]) == Some(cols)
    ensures Collect(Classify(lines[2..])).Ok? ==>
      ParseMatrix(lines) == Ok(Loaded(Collect(Classify(lines[2..])).value, rows, cols))
    ensures Collect(Classify(lines[2..])).Err? ==>
      ParseMatrix(lines) == Err(Collect(Classify(lines[2..])).error)
  {
  }

  /** The reader's loop, as load_from_file runs it over the lines of the
      file (the file itself is not opened here). */
  method LoadLines(lines: seq<string>) returns (res: Result<Loaded>)
    ensures res == ParseMatrix(lines)
  {
    if |lines| < 2 {
      return Err(FormatError);
    }
    var rows := ParseDimension(lines[0]);
    var cols := ParseDimension(lines[1]);
    if rows.None? || cols.None? {
      return Err(FormatError);
    }
    ReadOutcome(lines, rows.value, cols.value);
    var entries := ReadEntries(lines[2..]);
    if entries.Err? {
      return Err(entries.error);
    }
    return Ok(Loaded(entries.value, rows.value, cols.value));
  }

  /** The body of the loop of load_from_file: how one line after the
      first two is read. */
  method ReadLine(text: string) returns (kind: LineKind)
    ensures kind == ParseEntryLine(text)
  {
    var line := Strip(text);
    if line == [] {
      return Blank;
    }
    if !(line[0] == '(' && line[|line| - 1] == ')') {
      return Malformed;
    }
    var parts := Split(line[1..|line| - 1], ',');
    if |parts| != 3 {
      return Malformed;
    }
    var r, c, v := ParseInt(parts[0]), ParseInt(parts[1]), ParseInt(parts[2]);
    if r.None? || c.None? || v.None? {
      return Malformed;
    }
    return Triple(r.value, c.value, v.value);
  }

  /** The loop of load_from_file over the lines after the first two: a
      blank line is skipped, a triple is stored, and the first malformed
      line ends the read with a format error. */
  method ReadEntries(rest: seq<string>) returns (res: Result<Entries>)
    ensures res == Collect(Classify(rest))
  {
    var data: Entries := map[];
    ghost var kinds := Classify(rest);
    var i := 0;
    while i < |rest|
      invariant 0 <= i <= |rest|
      invariant Collect(kinds[..i]) == Ok(data)
    {
      var kind := ReadLine(rest[i]);
      assert kinds[i] == kind;
      match kind {
        case Malformed =>
          CollectStopsAt(kinds, i);
          return Err(FormatError);
        case Blank =>
          CollectStep(kinds, i, data);
        case Triple(r, c, v) =>
          CollectStep(kinds, i, data);
          data := data[(r, c) := v];
      }
      i := i + 1;
    }
    assert kinds[..i] == kinds;
    return Ok(data);
  }

  // ---------------------------------------------------------------------
  // The display order and the text it prints
  // ---------------------------------------------------------------------

  /** Python's ordering of (row, col) tuples: by row, then by column. */
  predicate CoordLess(x: Coord, y: Coord)
  {
    x.0 < y.0 || (x.0 == y.0 && x.1 < y.1)
  }

  /** A finite nonempty set of coordinates has a least element. */
  lemma {:induction false} LeastExists(s: set<Coord>)
    requires s != {}
    ensures exists m | m in s :: forall k | k in s :: m == k || CoordLess(m, k)
    decreases |s|
  {
    var x :| x in s;
    if s != {x} {
      LeastExists(s - {x});
      var m :| m in s - {x} && forall k | k in s - {x} :: m == k || CoordLess(m, k);
      if CoordLess(x, m) {
        forall k | k in s ensures x == k || CoordLess(x, k) {
          if k != x {
            assert k in s - {x};
          }
        }
      } else {
        assert forall k | k in s :: m == k || CoordLess(m, k);
      }
    }
  }

  /** The least coordinate of a nonempty set. */
  function Least(s: set<Coord>): (m: Coord)
    requires s != {}
    ensures m in s && forall k | k in s :: m == k || CoordLess(m, k)
  {
    LeastExists(s);
    var m :| m in s && forall k | k in s :: m == k || CoordLess(m, k);
    m
  }

  /** The coordinates of s in ascending order, as sorted() yields them. */
  function SortedCoords(s: set<Coord>): (ks: seq<Coord>)
    ensures forall i, j | 0 <= i < j < |ks| :: CoordLess(ks[i], ks[j])
    ensures forall k :: k in s <==> k in ks
    ensures |ks| == |s|
    decreases |s|
  {
    if s == {} then []
    else
      var m := Least(s);
      [m] + SortedCoords(s - {m})
  }

  /** One displayed entry, formatted as display() prints it. */
  function FormatEntry(k: Coord, v: int): string
  {
    "(" + Show(k.0) + ", " + Show(k.1) + ", " + Show(v) + ")"
  }

  /** The entries at the coordinates ks, one line each, in that order. */
  function EntryLines(m: Entries, ks: seq<Coord>): (ls: seq<string>)
    requires forall i | 0 <= i < |ks| :: ks[i] in m
  {
    seq(|ks|, i requires 0 <= i < |ks| => FormatEntry(ks[i], m[ks[i]]))
  }

  /** The lines display() prints: every stored entry (zero-valued ones
      too), in ascending coordinate order. */
  function Display(m: Entries): (ls: seq<string>)
    ensures |ls| == |m|
  {
    EntryLines(m, SortedCoords(m.Keys))
  }

  /** A line that is "(" inner ")" with no white space outside the
      parentheses reads as the triple its three pieces give. */
  lemma ReadParenthesized(t: string, r: int, c: int, v: int)
    requires |t| >= 2 && t[0] == '(' && t[|t| - 1] == ')'
    requires var parts := Split(t[1..|t| - 1], ',');
      |parts| == 3 && ParseInt(parts[0]) == Some(r) && ParseInt(parts[1]) == Some(c) && ParseInt(parts[2]) == Some(v)
    ensures ParseEntryLine(t) == Triple(r, c, v)
  {
    StripTrimmed(t);
  }

  /** The reader accepts one displayed line and gets its triple back. */
  lemma ReadDisplayedLine(k: Coord, v: int)
    ensures ParseEntryLine(FormatEntry(k, v)) == Triple(k.0, k.1, v)
  {
    var t := FormatEntry(k, v);
    var first, second, third := Show(k.0), " " + Show(k.1), " " + Show(v);
    assert |t| >= 2 && t[0] == '(' && t[|t| - 1] == ')';
    assert t[1..|t| - 1] == first + [','] + second + [','] + third;
    assert ',' !in first && ',' !in second && ',' !in third by {
      ShowShape(k.0);
      ShowShape(k.1);
      ShowShape(v);
    }
    SplitThree(first, second, third, ',');
    ParseShowBare(k.0);
    ParseShowAfterSpace(k.1);
    ParseShowAfterSpace(v);
    ReadParenthesized(t, k.0, k.1, v);
  }

  lemma ParseShowAfterSpace(n: int)
    ensures ParseInt(" " + Show(n)) == Some(n)
  {
    ParseShow(" ", n, []);
    assert " " + Show(n) + [] == " " + Show(n);
  }

  /** The readings of displayed entries at the coordinates ks. */
  function DisplayedKinds(m: Entries, ks: seq<Coord>): seq<LineKind>
    requires forall i | 0 <= i < |ks| :: ks[i] in m
  {
    seq(|ks|, i requires 0 <= i < |ks| => Triple(ks[i].0, ks[i].1, m[ks[i]]))
  }

  /** Collecting the triples of m at ks, in any order and with any
      repetition, stores exactly those entries. */
  lemma {:induction false} CollectDisplayed(m: Entries, ks: seq<Coord>)
    requires forall i | 0 <= i < |ks| :: ks[i] in m
    ensures Collect(DisplayedKinds(m, ks)) == Ok(map k | k in ks :: m[k])
    decreases |ks|
  {
    if ks != [] {
      var n := |ks| - 1;
      CollectDisplayed(m, ks[..n]);
      assert DisplayedKinds(m, ks)[..n] == DisplayedKinds(m, ks[..n]);
      var before := map k | k in ks[..n] :: m[k];
      assert before[ks[n] := m[ks[n]]] == map k | k in ks :: m[k] by {
        assert forall k :: k in ks <==> k in ks[..n] || k == ks[n] by {
          assert ks == ks[..n] + [ks[n]];
        }
      }
    }
  }

  /** Reading displayed lines gives back the entries they display. */
  lemma ReadEntryLines(m: Entries, ks: seq<Coord>)
    requires forall i | 0 <= i < |ks| :: ks[i] in m
    ensures Collect(Classify(EntryLines(m, ks))) == Ok(map k | k in ks :: m[k])
  {
    forall i | 0 <= i < |ks| ensures ParseEntryLine(EntryLines(m, ks)[i]) == DisplayedKinds(m, ks)[i] {
      ReadDisplayedLine(ks[i], m[ks[i]]);
    }
    assert Classify(EntryLines(m, ks)) == DisplayedKinds(m, ks);
    CollectDisplayed(m, ks);
  }

  /** The header lines of a matrix file. */
  function Header(rows: int, cols: int): seq<string>
  {
    ["rows=" + Show(rows), "cols=" + Show(cols)]
  }

  lemma ReadHeaderLine(line: string, key: string, n: int)
    requires Trimmed(key) && key != [] && '=' !in key
    requires line == key + "=" + Show(n)
    ensures ParseDimension(line) == Some(n)
  {
    ShowShape(n);
    StripTrimmed(line);
    SplitTwo(key, Show(n), '=');
    ParseShowBare(n);
  }

  /** Both header lines read back as the dimensions they show. */
  lemma ReadHeader(rows: int, cols: int)
    ensures ParseDimension(Header(rows, cols)[0]) == Some(rows)
    ensures ParseDimension(Header(rows, cols)[1]) == Some(cols)
  {
    ReadHeaderLine(Header(rows, cols)[0], "rows", rows);
    ReadHeaderLine(Header(rows, cols)[1], "cols", cols);
  }

  /** The displayed lines of m read back as m. */
  lemma ReadDisplay(m: Entries)
    ensures Collect(Classify(Display(m))) == Ok(m)
  {
    var ks := SortedCoords(m.Keys);
    ReadEntryLines(m, ks);
    assert (map k | k in ks :: m[k]) == m;
  }

  /** Reading back a header and the displayed entries of m recovers m and
      the dimensions exactly, whatever the order of the original file. */
  lemma DisplayRoundTrip(m: Entries, rows: int, cols: int)
    ensures ParseMatrix(Header(rows, cols) + Display(m)) == Ok(Loaded(m, rows, cols))
  {
    var lines := Header(rows, cols) + Display(m);
    ReadHeader(rows, cols);
    ReadDisplay(m);
    assert lines[2..] == Display(m);
    assert lines[..2] == Header(rows, cols);
    ReadOutcome(lines, rows, cols);
  }


  /** The reader keeps zero-valued triples: the entries it returns need
      not be sparse. */
  lemma ReaderStoresZeros(r: int, c: int, rows: int, cols: int)
    ensures ParseMatrix(Header(rows, cols) + [FormatEntry((r, c), 0)])
         == Ok(Loaded(map[(r, c) := 0], rows, cols))
    ensures !NoZeros(ParseMatrix(Header(rows, cols) + [FormatEntry((r, c), 0)]).value.data)
  {
    var m := map[(r, c) := 0];
    DisplayRoundTrip(m, rows, cols);
    assert SortedCoords(m.Keys) == [(r, c)];
    assert Display(m) == [FormatEntry((r, c), 0)];
  }
}

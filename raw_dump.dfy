/**
 * `write_dump_raw` in chimera-list.py: every row of the join over t_inodes,
 * t_locationinfo, t_dirs and t_inodes_checksum becomes one tab-separated line,
 * unless its parent directory does not resolve to a path or, with a pattern
 * set, the line does not contain the pattern.
 */
module RawDump {
  import opened Base
  import opened PyStr
  import ParentCache

  type Inumber = ParentCache.Inumber

  /** One row of the join: (ipnfsid, iname, iparent, isize, ilocation, iatime, isum). */
  datatype Row = Row(pnfsid: string, name: string, parent: Inumber, size: int,
                     location: string, atime: int, cksum: string)

  /** The decimal digits of `n`, most significant first. */
  function Digits(n: nat): (r: string)
    ensures r != [] && forall k :: 0 <= k < |r| ==> '0' <= r[k] <= '9'
  {
    if n < 10 then [(n + '0' as int) as char]
    else Digits(n / 10) + [(n % 10 + '0' as int) as char]
  }

  /** Python's `'%d' % n`: a '-' exactly for a negative number, then digits only. */
  function Decimal(n: int): (r: string)
    ensures r != [] && (r[0] == '-' <==> n < 0)
    ensures forall k :: 0 < k < |r| ==> '0' <= r[k] <= '9'
    ensures r[0] != '-' ==> '0' <= r[0] <= '9'
  {
    if n < 0 then "-" + Digits(-n) else Digits(n)
  }

  /** The number a string of decimal digits denotes. */
  function DigitsValue(s: string): int {
    if s == [] then 0 else DigitsValue(s[..|s| - 1]) * 10 + (s[|s| - 1] as int - '0' as int)
  }

  /** The number `'%d' % n` denotes, read back with its optional sign. */
  function DecimalValue(s: string): int {
    if s != [] && s[0] == '-' then -DigitsValue(s[1..]) else DigitsValue(s)
  }

  /** Digits denotes `n` and has no leading zero unless `n` is 0. */
  lemma {:induction false} DigitsRoundTrip(n: nat)
    ensures DigitsValue(Digits(n)) == n
    ensures Digits(n)[0] == '0' ==> n == 0
  {
    if n >= 10 {
      DigitsRoundTrip(n / 10);
      var d := Digits(n);
      assert d[..|d| - 1] == Digits(n / 10);
      assert d[0] == Digits(n / 10)[0];
    }
  }

  /** `'%d' % n` reads back as `n`, with no leading zero unless `n` is 0. */
  lemma DecimalRoundTrip(n: int)
    ensures DecimalValue(Decimal(n)) == n
    ensures var r := Decimal(n); var first := if n < 0 then r[1] else r[0]; first == '0' ==> n == 0
  {
    if n < 0 {
      DigitsRoundTrip(-n);
      assert Decimal(n)[1..] == Digits(-n);
    } else {
      DigitsRoundTrip(n);
    }
  }

  /** The line written for `row` whose parent directory is `parentPath`. */
  function Line(parentPath: string, row: Row): string {
    parentPath + "/" + row.name + "\t" + row.pnfsid + "\t" + row.cksum + "\t"
      + Decimal(row.size) + "\t" + Decimal(row.atime) + "\t" + row.location + "\n"
  }

  /**
   * A line reads back as six tab-separated fields (path, pnfsid, checksum,
   * size, atime, location), as long as no text field holds a tab; the
   * numbers never do.
   */
  lemma LineFields(parentPath: string, row: Row)
    requires '\t' !in parentPath && '\t' !in row.name && '\t' !in row.pnfsid
    requires '\t' !in row.cksum && '\t' !in row.location
    ensures var line := Line(parentPath, row);
      && line[|line| - 1] == '\n'
      && SplitChar(line[..|line| - 1], '\t') == Fields(parentPath, row)
  {
    var line := Line(parentPath, row);
    LineJoin(parentPath, row);
    assert line[..|line| - 1] == Join("\t", Fields(parentPath, row));
    DecimalNoTab(row.size);
    DecimalNoTab(row.atime);
    SplitJoin(Fields(parentPath, row), '\t');
  }

  /** The six fields of a line: path, pnfsid, checksum, size, atime, location. */
  function Fields(parentPath: string, row: Row): seq<string> {
    [parentPath + "/" + row.name, row.pnfsid, row.cksum, Decimal(row.size), Decimal(row.atime), row.location]
  }

  /** A line is its fields joined by tabs, then a newline. */
  lemma LineJoin(parentPath: string, row: Row)
    ensures Line(parentPath, row) == Join("\t", Fields(parentPath, row)) + "\n"
  {
    var f, t := Fields(parentPath, row), "\t";
    assert Join(t, f[..1]) == f[0];
    forall n | 1 <= n < 6 ensures Join(t, f[..n + 1]) == Join(t, f[..n]) + t + f[n] {
      assert f[..n + 1] == f[..n] + [f[n]];
      JoinSnoc(t, f[..n], f[n]);
    }
    assert Join(t, f[..2]) == f[0] + t + f[1];
    assert Join(t, f[..3]) == f[0] + t + f[1] + t + f[2];
    assert Join(t, f[..4]) == f[0] + t + f[1] + t + f[2] + t + f[3];
    assert Join(t, f[..5]) == f[0] + t + f[1] + t + f[2] + t + f[3] + t + f[4];
    assert Join(t, f[..6]) == f[0] + t + f[1] + t + f[2] + t + f[3] + t + f[4] + t + f[5];
    assert f[..6] == f;
  }

  /** A number never writes a tab. */
  lemma DecimalNoTab(n: int)
    ensures '\t' !in Decimal(n)
  {
    var r := Decimal(n);
    assert forall k :: 0 <= k < |r| ==> r[k] != '\t';
  }

  /** `opts.pat` is truthy: set and not empty. */
  predicate Filtering(pat: Option<string>) {
    pat.Some? && pat.value != ""
  }

  /**
   * The row is written: its parent path is truthy (not None, not empty) and,
   * when a pattern is set, the pattern occurs in the whole line.
   */
  ghost predicate Emits(parentPath: Option<string>, row: Row, pat: Option<string>) {
    && parentPath.Some? && parentPath.value != ""
    && (Filtering(pat) ==> Contains(Line(parentPath.value, row), pat.value))
  }

  /** The lines written for `rows`, in order, given the path each parent inumber resolves to. */
  ghost function RawLines(rows: seq<Row>, pat: Option<string>, paths: Inumber -> Option<string>): seq<string> {
    if rows == [] then []
    else
      var row := rows[|rows| - 1];
      RawLines(rows[..|rows| - 1], pat, paths)
        + if Emits(paths(row.parent), row, pat) then [Line(paths(row.parent).value, row)] else []
  }

  /** Rows are handled one at a time: the lines of a concatenation are the concatenated lines, in input order. */
  lemma {:induction false} RawLinesAppend(a: seq<Row>, b: seq<Row>, pat: Option<string>, paths: Inumber -> Option<string>)
    ensures RawLines(a + b, pat, paths) == RawLines(a, pat, paths) + RawLines(b, pat, paths)
    decreases |b|
  {
    if b == [] {
      assert a + b == a;
    } else {
      assert (a + b)[..|a + b| - 1] == a + b[..|b| - 1];
      RawLinesAppend(a, b[..|b| - 1], pat, paths);
    }
  }

  /**
   * A line is written if and only if it is the line of some row that Emits:
   * rows with an unresolvable or empty parent path, and rows whose line misses
   * the pattern, are dropped; every other row is written unmodified.
   */
  lemma RawLinesMembers(rows: seq<Row>, pat: Option<string>, paths: Inumber -> Option<string>, line: string)
    ensures line in RawLines(rows, pat, paths) <==> exists j :: WrittenFor(rows, j, pat, paths, line)
  {
    if line in RawLines(rows, pat, paths) {
      var j := RawLinesSource(rows, pat, paths, line);
    }
    if exists j :: WrittenFor(rows, j, pat, paths, line) {
      var j :| WrittenFor(rows, j, pat, paths, line);
      RawLinesHas(rows, j, pat, paths, line);
    }
  }

  /** Every written line comes from a row that passes. */
  lemma {:induction false} RawLinesSource(rows: seq<Row>, pat: Option<string>, paths: Inumber -> Option<string>, line: string)
    returns (j: int)
    requires line in RawLines(rows, pat, paths)
    ensures WrittenFor(rows, j, pat, paths, line)
  {
    var n := |rows| - 1;
    var init, row := rows[..n], rows[n];
    var tail := if Emits(paths(row.parent), row, pat) then [Line(paths(row.parent).value, row)] else [];
    assert RawLines(rows, pat, paths) == RawLines(init, pat, paths) + tail;
    if line in RawLines(init, pat, paths) {
      j := RawLinesSource(init, pat, paths, line);
      assert init[j] == rows[j];
    } else {
      j := n;
    }
  }

  /** Every row that passes has its line written. */
  lemma {:induction false} RawLinesHas(rows: seq<Row>, j: int, pat: Option<string>, paths: Inumber -> Option<string>, line: string)
    requires WrittenFor(rows, j, pat, paths, line)
    ensures line in RawLines(rows, pat, paths)
  {
    var n := |rows| - 1;
    var init, row := rows[..n], rows[n];
    var tail := if Emits(paths(row.parent), row, pat) then [Line(paths(row.parent).value, row)] else [];
    assert RawLines(rows, pat, paths) == RawLines(init, pat, paths) + tail;
    if j < n {
      assert init[j] == rows[j];
      RawLinesHas(init, j, pat, paths, line);
    } else {
      assert line in tail;
    }
  }

  /** Row j of `rows` passes and `line` is its line. */
  ghost predicate WrittenFor(rows: seq<Row>, j: int, pat: Option<string>, paths: Inumber -> Option<string>, line: string) {
    0 <= j < |rows| && Emits(paths(rows[j].parent), rows[j], pat) && line == Line(paths(rows[j].parent).value, rows[j])
  }

  /** At most one line per row. */
  lemma {:induction false} RawLinesBounded(rows: seq<Row>, pat: Option<string>, paths: Inumber -> Option<string>)
    ensures |RawLines(rows, pat, paths)| <= |rows|
  {
    if rows != [] {
      RawLinesBounded(rows[..|rows| - 1], pat, paths);
    }
  }

  /** A pattern found in the location (a pool name, say) keeps every row whose parent path is truthy. */
  lemma PatternInLocationKeeps(parentPath: string, row: Row, pat: string)
    requires parentPath != "" && Contains(row.location, pat)
    ensures Emits(Some(parentPath), row, Some(pat))
  {
    var j :| Occurs(row.location, pat, j);
    var before := parentPath + "/" + row.name + "\t" + row.pnfsid + "\t" + row.cksum + "\t"
      + Decimal(row.size) + "\t" + Decimal(row.atime) + "\t";
    assert Line(parentPath, row) == before + row.location + "\n";
    OccursWithin(before, row.location, "\n", pat, j);
  }

  /** A pattern found in the parent path (a directory like /store/mc) keeps every row below it. */
  lemma PatternInPathKeeps(parentPath: string, row: Row, pat: string)
    requires parentPath != "" && Contains(parentPath, pat)
    ensures Emits(Some(parentPath), row, Some(pat))
  {
    var j :| Occurs(parentPath, pat, j);
    var line := Line(parentPath, row);
    assert line[..|parentPath|] == parentPath;
    assert line[j..j + |pat|] == parentPath[j..j + |pat|];
    assert Occurs(line, pat, j);
  }

  /** The parent inumbers of the rows, in order: the arguments of the `search_parent` calls. */
  function Parents(rows: seq<Row>): (ps: seq<Inumber>)
    ensures |ps| == |rows| && forall j :: 0 <= j < |rows| ==> ps[j] == rows[j].parent
  {
    seq(|rows|, j requires 0 <= j < |rows| => rows[j].parent)
  }

  /** One more row: the run of calls is extended by one `search_parent` call on its parent. */
  lemma SearchAllNext(dirs: ParentCache.Dirs, store: ParentCache.PathStore, rows: seq<Row>, n: nat)
    requires n < |rows|
    ensures var prev := ParentCache.SearchAll(dirs, store, Parents(rows[..n]));
      var s := ParentCache.Search(prev.dirs, store, rows[n].parent);
      ParentCache.SearchAll(dirs, store, Parents(rows[..n + 1]))
        == ParentCache.Calls(prev.results + [s.result], s.dirs, prev.queries + if s.queried then [rows[n].parent] else [])
  {
    var ps := Parents(rows[..n + 1]);
    assert ps[..n] == Parents(rows[..n]) && ps[n] == rows[n].parent;
  }

  /** One more row: its line, if it Emits, follows the lines of the rows before it. */
  lemma RawLinesNext(rows: seq<Row>, n: nat, pat: Option<string>, paths: Inumber -> Option<string>)
    requires n < |rows|
    ensures var row := rows[n];
      RawLines(rows[..n + 1], pat, paths)
        == RawLines(rows[..n], pat, paths) + if Emits(paths(row.parent), row, pat) then [Line(paths(row.parent).value, row)] else []
  {
    assert rows[..n + 1][..n] == rows[..n] && rows[..n + 1][n] == rows[n];
  }

  /**
   * Regrouping the query log. Kept apart from WriteDumpRaw: the loop body's
   * context is large, and proving this step there costs more than the rest.
   */
  lemma LogGrows(a: seq<Inumber>, b: seq<Inumber>, c: seq<Inumber>)
    ensures (a + b) + c == a + (b + c)
  {
  }

  /**
   * The body of the loop of `write_dump_raw` for one row: the parent path
   * through the cache, then the line if the row Emits. The cache takes one
   * Search step on the row's parent.
   */
  method DumpRow(cache: ParentCache.ParentPathCache, row: Row, pat: Option<string>) returns (entry: Option<string>)
    requires cache.Valid()
    modifies cache
    ensures cache.Valid()
    ensures var p := ParentCache.Expected(cache.root, cache.rootPath, cache.store, row.parent);
      entry == if Emits(p, row, pat) then Some(Line(p.value, row)) else None
    ensures var s := ParentCache.Search(old(cache.dirs), cache.store, row.parent);
      cache.dirs == s.dirs && cache.queries == old(cache.queries) + if s.queried then [row.parent] else []
  {
    var parentPath := cache.SearchParent(row.parent);
    if parentPath.None? || parentPath.value == "" {
      return None;
    }
    var line := Line(parentPath.value, row);
    if Filtering(pat) && !IsIn(pat.value, line) {
      return None;
    }
    entry := Some(line);
  }

  /**
   * The loop of `write_dump_raw`: each row's parent is resolved through the
   * cache, and the rows that Emit are written in order. The lines are those of
   * RawLines with the paths the cache stands for, and the cache ends as the
   * run of `search_parent` calls on the rows' parents leaves it, having asked
   * the store about exactly the inumbers that run asks about.
   */
  method WriteDumpRaw(cache: ParentCache.ParentPathCache, rows: seq<Row>, pat: Option<string>)
    returns (lines: seq<string>)
    requires cache.Valid()
    modifies cache
    ensures cache.Valid()
    ensures lines == RawLines(rows, pat, i => ParentCache.Expected(cache.root, cache.rootPath, cache.store, i))
    ensures var run := ParentCache.SearchAll(old(cache.dirs), cache.store, Parents(rows));
      cache.dirs == run.dirs && cache.queries == old(cache.queries) + run.queries
  {
    ghost var paths := i => ParentCache.Expected(cache.root, cache.rootPath, cache.store, i);
    ghost var dirs0, queries0 := cache.dirs, cache.queries;
    ghost var run := ParentCache.Calls([], dirs0, []);
    lines := [];
    for n := 0 to |rows|
      invariant cache.Valid()
      invariant lines == RawLines(rows[..n], pat, paths)
      invariant run == ParentCache.SearchAll(dirs0, cache.store, Parents(rows[..n]))
      invariant cache.dirs == run.dirs && cache.queries == queries0 + run.queries
    {
      ghost var s := ParentCache.Search(run.dirs, cache.store, rows[n].parent);
      ghost var added := if s.queried then [rows[n].parent] else [];
      var entry := DumpRow(cache, rows[n], pat);
      RawLinesNext(rows, n, pat, paths);
      SearchAllNext(dirs0, cache.store, rows, n);
      LogGrows(queries0, run.queries, added);
      run := ParentCache.Calls(run.results + [s.result], s.dirs, run.queries + added);
      if entry.Some? {
        lines := lines + [entry.value];
      }
    }
    assert rows[..|rows|] == rows;
  }
}

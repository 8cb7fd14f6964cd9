/**
 * `write_dump_condensed`, `write_entry` and `short_loc` in chimera-list.py: the
 * sorted dump is read line by line, consecutive lines with the same key (the
 * text before the last tab) are merged into one record carrying all their
 * locations, and a directory line is written only when the directory changes.
 */
module Condense {
  import opened Base
  import opened PyStr
  import opened Runs

  /** `line.strip().rsplit('\t', 1)` unpacked into (entry, location); None where the unpacking raises. */
  function ParseLine(line: string): (r: Option<(string, string)>)
    ensures r.None? <==> '\t' !in Strip(line, Whitespace)
    ensures r.Some? ==> Strip(line, Whitespace) == r.value.0 + "\t" + r.value.1 && '\t' !in r.value.1
    ensures r.Some? ==> r.value.0 != "" && r.value.1 != ""
  {
    var s := Strip(line, Whitespace);
    var r := RSplitOnce(s, '\t');
    assert r.Some? ==> r.value.0 != "" && r.value.1 != "" by {
      if r.Some? {
        assert s[|r.value.0|] == '\t';
      }
    }
    r
  }

  /** `short_loc(loc)`: `loc.split('group=')[1].split('&')[0]`, or `loc` itself where the indexing raises. */
  function ShortLoc(loc: string): (r: string)
    ensures !Contains(loc, "group=") ==> r == loc
  {
    var parts := SplitOn(loc, "group=");
    if |parts| < 2 then loc else SplitOn(parts[1], "&")[0]
  }

  function ShortLocs(locations: seq<string>): (r: seq<string>)
    ensures |r| == |locations| && forall j :: 0 <= j < |r| ==> r[j] == ShortLoc(locations[j])
  {
    seq(|locations|, j requires 0 <= j < |locations| => ShortLoc(locations[j]))
  }

  /** The attribute `short_loc` looks for. */
  const GroupTag := "group="

  /**
   * With "group=" first occurring at index i of the location, `short_loc`
   * keeps what follows it up to the first '&', the next "group=", or the end
   * of the location, whichever comes first.
   */
  lemma ShortLocCuts(loc: string, i: nat)
    requires Occurs(loc, GroupTag, i) && forall j :: 0 <= j < i ==> !Occurs(loc, GroupTag, j)
    ensures var rest, r := loc[i + |GroupTag|..], ShortLoc(loc);
      && |r| <= |rest| && r == rest[..|r|]
      && '&' !in r
      && (forall j :: 0 <= j < |r| ==> !Occurs(rest, GroupTag, j))
      && (|r| == |rest| || rest[|r|] == '&' || Occurs(rest, GroupTag, |r|))
  {
    ShortLocAfterTag(loc, i);
    CutSegment(loc[i + |GroupTag|..]);
  }

  /** With "group=" first at index i, `short_loc` works on what follows that occurrence. */
  lemma ShortLocAfterTag(loc: string, i: nat)
    requires Occurs(loc, GroupTag, i) && forall j :: 0 <= j < i ==> !Occurs(loc, GroupTag, j)
    ensures ShortLoc(loc) == SplitOn(SplitOn(loc[i + |GroupTag|..], GroupTag)[0], "&")[0]
  {
    FirstOccurrence(loc, GroupTag, i);
    SplitOnSecond(loc, GroupTag, i);
  }

  /** The piece of `rest` before its first "group=", cut again before its first '&'. */
  lemma CutSegment(rest: string)
    ensures var r := SplitOn(SplitOn(rest, GroupTag)[0], "&")[0];
      && |r| <= |rest| && r == rest[..|r|]
      && '&' !in r
      && (forall j :: 0 <= j < |r| ==> !Occurs(rest, GroupTag, j))
      && (|r| == |rest| || rest[|r|] == '&' || Occurs(rest, GroupTag, |r|))
  {
    var seg := SplitOn(rest, GroupTag)[0];
    SplitOnHead(rest, GroupTag);
    SplitOnHead(seg, "&");
    var r := SplitOn(seg, "&")[0];
    forall j | 0 <= j < |r| ensures r[j] != '&' {
      OccursChar(seg, '&', j);
    }
    OccursChar(seg, '&', |r|);
  }

  /**
   * A location that starts with "group=" followed by a pool name and an '&'
   * is shortened to that pool name, whatever follows the '&'.
   */
  lemma ShortLocPool(pool: string, tail: string)
    requires '&' !in pool && !Contains(pool, GroupTag)
    ensures ShortLoc(GroupTag + pool + "&" + tail) == pool
  {
    var rest := pool + "&" + tail;
    var loc := GroupTag + rest;
    assert loc[0..|GroupTag|] == GroupTag;
    assert loc[|GroupTag|..] == rest;
    ShortLocCuts(loc, 0);
    var r := ShortLoc(loc);
    assert rest[|pool|] == '&';
    assert forall k :: 0 <= k < |r| ==> rest[k] != '&';
    assert |r| <= |pool|;
    assert forall k :: 0 <= k < |pool| ==> rest[k] == pool[k];
    NoTagBeforeAmpersand(pool, tail);
    assert |r| == |pool|;
    assert r == rest[..|pool|] == pool;
    assert loc == GroupTag + pool + "&" + tail;
  }

  /** No "group=" starts inside a pool name free of '&' and "group=" when an '&' follows it. */
  lemma NoTagBeforeAmpersand(pool: string, tail: string)
    requires '&' !in pool && !Contains(pool, GroupTag)
    ensures forall k :: 0 <= k < |pool| ==> !Occurs(pool + "&" + tail, GroupTag, k)
  {
    var rest := pool + "&" + tail;
    forall k | 0 <= k < |pool| ensures !Occurs(rest, GroupTag, k) {
      if k + |GroupTag| <= |pool| {
        assert !Occurs(pool, GroupTag, k);
        assert rest[k..k + |GroupTag|] == pool[k..k + |GroupTag|];
      } else if k + |GroupTag| <= |rest| {
        assert rest[|pool|] == '&';
        assert rest[k..k + |GroupTag|][|pool| - k] == '&';
      }
    }
  }

  /**
   * The record line for a file: what follows the directory, a tab, and the
   * simplified locations joined by commas. It is one line: it ends in a
   * newline and holds no other as long as its parts hold none.
   */
  function RecordLine(other: string, locations: seq<string>): (r: string)
    ensures |r| > |other| && r[|r| - 1] == '\n' && r[|other|] == '\t' && r[..|other|] == other
    ensures '\n' !in other && (forall j :: 0 <= j < |locations| ==> '\n' !in ShortLoc(locations[j]))
      ==> '\n' !in r[..|r| - 1]
  {
    var joined := Join(",", ShortLocs(locations));
    assert (forall j :: 0 <= j < |locations| ==> '\n' !in ShortLoc(locations[j])) ==> '\n' !in joined by {
      if forall j :: 0 <= j < |locations| ==> '\n' !in ShortLoc(locations[j]) {
        JoinNoChar(",", ShortLocs(locations), '\n');
      }
    }
    assert (other + "\t" + joined + "\n")[..|other| + 1 + |joined|] == other + "\t" + joined;
    other + "\t" + joined + "\n"
  }

  /**
   * A record line reads back: it ends in a newline, its last tab ends the text
   * taken from the key, and the field after that tab, split at the commas,
   * gives the simplified locations, as long as no simplified location holds a
   * comma or a tab.
   */
  lemma RecordLineReadBack(other: string, locations: seq<string>)
    requires locations != []
    requires forall j :: 0 <= j < |locations| ==> ',' !in ShortLoc(locations[j]) && '\t' !in ShortLoc(locations[j])
    ensures var line, joined := RecordLine(other, locations), Join(",", ShortLocs(locations));
      && line[|line| - 1] == '\n'
      && RSplitOnce(line[..|line| - 1], '\t') == Some((other, joined))
      && SplitChar(joined, ',') == ShortLocs(locations)
  {
    var line := RecordLine(other, locations);
    var joined := Join(",", ShortLocs(locations));
    assert line[..|line| - 1] == other + "\t" + joined;
    JoinNoChar(",", ShortLocs(locations), '\t');
    RSplitOnceAt(other, '\t', joined);
    SplitJoin(ShortLocs(locations), ',');
  }

  /** Why the merge aborts: a line with no tab, or a key with no '/' to split off a directory. */
  datatype MergeError = BadLine(index: nat) | NoDirectory(key: string)


  /** A run of lines with one key: the key and its locations, in input order. */
  type Group = Run<string, string>

  /** The record `write_entry` writes for a group, once its key is split at the last '/'. */
  datatype Entry = Entry(dir: string, other: string, locations: seq<string>)

  /** `dn, other = entry.rsplit('/', 1)` for a group; None where the unpacking raises. */
  function SplitKey(g: Group): (r: Option<Entry>)
    ensures r.None? <==> '/' !in g.key
    ensures r.Some? ==> g.key == r.value.dir + "/" + r.value.other && '/' !in r.value.other
    ensures r.Some? ==> r.value.locations == g.locations
  {
    match RSplitOnce(g.key, '/')
    case None => None
    case Some((dn, other)) => Some(Entry(dn, other, g.locations))
  }

  /** The output so far and `write_entry.last_dn`. */
  datatype Written = Written(lines: seq<string>, lastDn: Option<string>)

  /** The writer before the first group: nothing written, `last_dn` None. */
  const Fresh := Written([], None)

  /** The lines `write_entry` adds for an entry: its directory if it is not the last one written, then its record. */
  function EntryLines(lastDn: Option<string>, e: Entry): seq<string> {
    (if Some(e.dir) != lastDn then [e.dir + "\n"] else []) + [RecordLine(e.other, e.locations)]
  }

  /** `write_entry(key, locations)`: a key without '/' aborts the merge, naming the key. */
  function Flush(w: Written, g: Group): (r: Result<Written, MergeError>)
    ensures r.Failure? <==> '/' !in g.key
    ensures r.Failure? ==> r.error == NoDirectory(g.key)
  {
    match SplitKey(g)
    case None => Failure(NoDirectory(g.key))
    case Some(e) => Success(Written(w.lines + EntryLines(w.lastDn, e), Some(e.dir)))
  }

  /**
   * A group whose key has a '/' grows the output by its record, preceded by
   * the directory line exactly when the directory differs from the last one
   * written, and its directory becomes the last one written.
   */
  lemma FlushAppends(w: Written, g: Group)
    requires '/' in g.key
    ensures var r, e := Flush(w, g), SplitKey(g).value;
      && r.Success? && r.value.lastDn == Some(e.dir)
      && |r.value.lines| == |w.lines| + (if w.lastDn == Some(e.dir) then 1 else 2)
      && r.value.lines[..|w.lines|] == w.lines
      && r.value.lines[|r.value.lines| - 1] == RecordLine(e.other, g.locations)
      && (w.lastDn != Some(e.dir) ==> r.value.lines[|w.lines|] == e.dir + "\n")
  {
    var e := SplitKey(g).value;
    assert (w.lines + EntryLines(w.lastDn, e))[..|w.lines|] == w.lines;
  }

  /**
   * Flushing the groups one after another; the first failure aborts. It
   * succeeds exactly when every key has a '/', and then only appends to the
   * output; a failure names a key without '/'.
   */
  function FlushAll(gs: seq<Group>, w: Written): (r: Result<Written, MergeError>)
    ensures r.Success? <==> AllHaveDirectory(gs)
    ensures r.Failure? ==> r.error.NoDirectory? && '/' !in r.error.key
    ensures r.Success? ==> w.lines <= r.value.lines
  {
    if gs == [] then Success(w)
    else
      assert forall j :: 0 <= j < |gs| - 1 ==> gs[..|gs| - 1][j] == gs[j];
      match FlushAll(gs[..|gs| - 1], w)
      case Failure(e) => Failure(e)
      case Success(w') => Flush(w', gs[|gs| - 1])
  }

  /** Every group's key has a '/'. */
  predicate AllHaveDirectory(gs: seq<Group>) {
    forall j :: 0 <= j < |gs| ==> '/' in gs[j].key
  }

  /** The entries of groups whose keys all hold a '/'. */
  function Entries(gs: seq<Group>): (es: seq<Entry>)
    requires AllHaveDirectory(gs)
    ensures |es| == |gs| && forall j :: 0 <= j < |gs| ==> SplitKey(gs[j]) == Some(es[j])
  {
    seq(|gs|, j requires 0 <= j < |gs| => SplitKey(gs[j]).value)
  }

  /**
   * The listing without the writer's state: each entry's record, preceded by
   * its directory exactly when it is the first entry or its directory differs
   * from the previous entry's.
   */
  function Listing(es: seq<Entry>): seq<string> {
    if es == [] then []
    else
      var n := |es|;
      var header := if n == 1 || es[n - 1].dir != es[n - 2].dir then [es[n - 1].dir + "\n"] else [];
      Listing(es[..n - 1]) + header + [RecordLine(es[n - 1].other, es[n - 1].locations)]
  }

  /** The record lines of the entries, one per entry, without directory lines. */
  function Records(es: seq<Entry>): (r: seq<string>)
    ensures |r| == |es| && forall j :: 0 <= j < |es| ==> r[j] == RecordLine(es[j].other, es[j].locations)
  {
    seq(|es|, j requires 0 <= j < |es| => RecordLine(es[j].other, es[j].locations))
  }

  /**
   * Flushing from a fresh writer writes the Listing of the entries and
   * remembers the last directory: `last_dn` carries exactly "the previous
   * entry's directory" from one call to the next.
   */
  lemma {:induction false} FlushAllListing(gs: seq<Group>)
    requires AllHaveDirectory(gs)
    ensures FlushAll(gs, Fresh)
      == Success(Written(Listing(Entries(gs)), if gs == [] then None else Some(Entries(gs)[|gs| - 1].dir)))
  {
    if gs != [] {
      var n := |gs|;
      var init := gs[..n - 1];
      FlushAllListing(init);
      var es := Entries(gs);
      assert Entries(init) == es[..n - 1];
      FlushExtendsListing(es, gs[n - 1]);
    }
  }

  /** One more `write_entry` call extends the listing by the entry's lines. */
  lemma FlushExtendsListing(es: seq<Entry>, g: Group)
    requires es != [] && SplitKey(g) == Some(es[|es| - 1])
    ensures var n := |es|;
      Flush(Written(Listing(es[..n - 1]), if n == 1 then None else Some(es[n - 2].dir)), g)
        == Success(Written(Listing(es), Some(es[n - 1].dir)))
  {
    var n := |es|;
    var e := es[n - 1];
    var lastDn := if n == 1 then None else Some(es[n - 2].dir);
    var before := Listing(es[..n - 1]);
    assert Flush(Written(before, lastDn), g) == Success(Written(before + EntryLines(lastDn, e), Some(e.dir)));
    ListingSnoc(es);
  }

  /** The listing of one more entry, in the form `write_entry` produces it. */
  lemma ListingSnoc(es: seq<Entry>)
    requires es != []
    ensures var n := |es|;
      Listing(es) == Listing(es[..n - 1]) + EntryLines(if n == 1 then None else Some(es[n - 2].dir), es[n - 1])
  {
  }

  /** Flushing aborts at the first group whose key has no '/', naming its key. */
  lemma {:induction false} FlushAllNoDirectory(gs: seq<Group>, w: Written, k: nat)
    requires k < |gs| && '/' !in gs[k].key && AllHaveDirectory(gs[..k])
    ensures FlushAll(gs, w) == Failure(NoDirectory(gs[k].key))
    decreases |gs|
  {
    if k < |gs| - 1 {
      assert gs[..|gs| - 1][..k] == gs[..k];
      FlushAllNoDirectory(gs[..|gs| - 1], w, k);
    } else {
      assert gs[..|gs| - 1] == gs[..k];
    }
  }

  /** Entries in one directory produce exactly one directory line, before all their records. */
  lemma {:induction false} SameDirectoryOneHeader(es: seq<Entry>, dn: string)
    requires es != []
    requires forall j :: 0 <= j < |es| ==> es[j].dir == dn
    ensures Listing(es) == [dn + "\n"] + Records(es)
  {
    var n := |es|;
    var init := es[..n - 1];
    var last := RecordLine(es[n - 1].other, es[n - 1].locations);
    RecordsSnoc(es);
    ListingSnoc(es);
    if n > 1 {
      SameDirectoryOneHeader(init, dn);
      assert EntryLines(Some(dn), es[n - 1]) == [last];
    } else {
      assert init == [];
      assert EntryLines(None, es[n - 1]) == [dn + "\n"] + [last];
    }
  }

  /**
   * Three sorted lines for two files of one directory, the first file stored
   * twice: one directory line, then one record per file, the first with both
   * of its locations in order.
   */
  lemma FlushTwoFilesOneDirectory(dn: string, f: string, g: string, l1: string, l2: string, l3: string)
    requires '/' !in f && '/' !in g && f != g
    ensures FlushAll(Groups([(dn + "/" + f, l1), (dn + "/" + f, l2), (dn + "/" + g, l3)]), Fresh)
      == Success(Written([dn + "\n", RecordLine(f, [l1, l2]), RecordLine(g, [l3])], Some(dn)))
  {
    var kf, kg := dn + "/" + f, dn + "/" + g;
    assert kf != kg by {
      assert kf[|dn| + 1..] == f && kg[|dn| + 1..] == g;
    }
    var gs := [Run(kf, [l1, l2]), Run(kg, [l3])];
    var es := [Entry(dn, f, [l1, l2]), Entry(dn, g, [l3])];
    assert AllHaveDirectory(gs) by {
      assert kf[|dn|] == '/' && kg[|dn|] == '/';
    }
    calc {
      FlushAll(Groups([(kf, l1), (kf, l2), (kg, l3)]), Fresh);
      { GroupsTwoRuns(kf, kg, l1, l2, l3); }
      FlushAll(gs, Fresh);
      { FlushAllListing(gs); }
      Success(Written(Listing(Entries(gs)), Some(Entries(gs)[1].dir)));
      { EntriesTwoFiles(dn, f, g, l1, l2, l3); }
      Success(Written(Listing(es), Some(dn)));
      { ListingTwoFiles(dn, f, g, l1, l2, l3); }
      Success(Written([dn + "\n", RecordLine(f, [l1, l2]), RecordLine(g, [l3])], Some(dn)));
    }
  }

  lemma EntriesTwoFiles(dn: string, f: string, g: string, l1: string, l2: string, l3: string)
    requires '/' !in f && '/' !in g
    ensures var gs := [Run(dn + "/" + f, [l1, l2]), Run(dn + "/" + g, [l3])];
      AllHaveDirectory(gs) && Entries(gs) == [Entry(dn, f, [l1, l2]), Entry(dn, g, [l3])]
  {
    SplitKeyAt(dn, f, [l1, l2]);
    SplitKeyAt(dn, g, [l3]);
  }

  lemma ListingTwoFiles(dn: string, f: string, g: string, l1: string, l2: string, l3: string)
    ensures Listing([Entry(dn, f, [l1, l2]), Entry(dn, g, [l3])]) == [dn + "\n", RecordLine(f, [l1, l2]), RecordLine(g, [l3])]
  {
    var es := [Entry(dn, f, [l1, l2]), Entry(dn, g, [l3])];
    SameDirectoryOneHeader(es, dn);
    assert Records(es) == [RecordLine(f, [l1, l2]), RecordLine(g, [l3])];
  }

  lemma SplitKeyAt(dn: string, other: string, locations: seq<string>)
    requires '/' !in other
    ensures SplitKey(Run(dn + "/" + other, locations)) == Some(Entry(dn, other, locations))
  {
    RSplitOnceAt(dn, '/', other);
  }

  /** A directory line is one without a tab: records always hold one, directories never do. */
  predicate IsDirectoryLine(line: string) {
    '\t' !in line
  }

  /** The directory lines of the listing are exactly the directories where an entry's directory changes, in order. */
  function Headers(es: seq<Entry>): seq<string> {
    if es == [] then []
    else
      var n := |es|;
      Headers(es[..n - 1]) + if n == 1 || es[n - 1].dir != es[n - 2].dir then [es[n - 1].dir + "\n"] else []
  }

  /** The tab-free lines of the listing are its directory headers, and the others its records, each in order. */
  lemma {:induction false} ListingSplits(es: seq<Entry>)
    requires forall j :: 0 <= j < |es| ==> '\t' !in es[j].dir
    ensures Filter(Listing(es), true) == Headers(es)
    ensures Filter(Listing(es), false) == Records(es)
  {
    if es != [] {
      var n := |es|;
      var init := es[..n - 1];
      ListingSplits(init);
      var header := if n == 1 || es[n - 1].dir != es[n - 2].dir then [es[n - 1].dir + "\n"] else [];
      var last := RecordLine(es[n - 1].other, es[n - 1].locations);
      ListingParts(es);
      RecordsSnoc(es);
      RecordLineHasTab(es[n - 1].other, es[n - 1].locations);
      assert header != [] ==> IsDirectoryLine(header[0]);
      FilterParts(Listing(init), header, last);
    }
  }

  /** The last entry's contribution to the listing and to its headers. */
  lemma ListingParts(es: seq<Entry>)
    requires es != []
    ensures var n, init := |es|, es[..|es| - 1];
      var header := if n == 1 || es[n - 1].dir != es[n - 2].dir then [es[n - 1].dir + "\n"] else [];
      var last := RecordLine(es[n - 1].other, es[n - 1].locations);
      && Listing(es) == Listing(init) + header + [last]
      && Headers(es) == Headers(init) + header
  {
  }

  lemma RecordsSnoc(es: seq<Entry>)
    requires es != []
    ensures Records(es) == Records(es[..|es| - 1]) + [RecordLine(es[|es| - 1].other, es[|es| - 1].locations)]
  {
  }

  /** A record line is never a directory line: it holds the tab after the file's name. */
  lemma RecordLineHasTab(other: string, locations: seq<string>)
    ensures !IsDirectoryLine(RecordLine(other, locations))
  {
    assert RecordLine(other, locations)[|other|] == '\t';
  }

  /** Filtering a block of lines, then at most one directory line, then one record line. */
  lemma FilterParts(a: seq<string>, header: seq<string>, last: string)
    requires header == [] || (|header| == 1 && IsDirectoryLine(header[0]))
    requires !IsDirectoryLine(last)
    ensures Filter(a + header + [last], true) == Filter(a, true) + header
    ensures Filter(a + header + [last], false) == Filter(a, false) + [last]
  {
    assert (a + header + [last])[..|a + header|] == a + header;
    if header != [] {
      assert (a + header)[..|a|] == a;
    } else {
      assert a + header == a;
    }
  }

  /** The lines that are directory lines (`headers` true) or record lines (`headers` false), in order. */
  function Filter(lines: seq<string>, headers: bool): seq<string> {
    if lines == [] then []
    else Filter(lines[..|lines| - 1], headers) + if IsDirectoryLine(lines[|lines| - 1]) == headers then [lines[|lines| - 1]] else []
  }

  /** A line as the loop unpacks it: (entry, location), or None where the unpacking raises. */
  type Parsed = Option<(string, string)>

  function ParseAll(lines: seq<string>): (ps: seq<Parsed>)
    ensures |ps| == |lines| && forall j :: 0 <= j < |ps| ==> ps[j] == ParseLine(lines[j])
  {
    seq(|lines|, j requires 0 <= j < |lines| => ParseLine(lines[j]))
  }

  /** The index of the first line the loop cannot unpack, or the number of lines. */
  function FirstBad(ps: seq<Parsed>): (k: nat)
    ensures k <= |ps|
    ensures forall j :: 0 <= j < k ==> ps[j].Some?
    ensures k < |ps| ==> ps[k].None?
  {
    if ps == [] || ps[0].None? then 0
    else
      var k := FirstBad(ps[1..]);
      assert forall j :: 1 <= j < k + 1 ==> ps[j] == ps[1..][j - 1];
      k + 1
  }

  /** The (entry, location) pairs of the first n lines, all of which unpack. */
  function Pairs(ps: seq<Parsed>, n: nat): (r: seq<(string, string)>)
    requires n <= |ps| && forall j :: 0 <= j < n ==> ps[j].Some?
    ensures |r| == n && forall j :: 0 <= j < n ==> r[j] == ps[j].value
  {
    seq(n, j requires 0 <= j < n => ps[j].value)
  }

  /** The groups the merge flushes: every group, or all but the pending one when a bad line stops it. */
  function FlushedGroups(ps: seq<Parsed>): seq<Group> {
    var k := FirstBad(ps);
    var gs := Groups(Pairs(ps, k));
    if k < |ps| then Butlast(gs) else gs
  }

  /**
   * What the merge produces, stated by stages rather than by the loop: take
   * the lines up to the first one that cannot be unpacked, group them into
   * maximal runs, and flush the groups in order. A bad line aborts before the
   * group still pending is flushed; a key without '/' aborts when its group is
   * flushed.
   */
  function CondenseParsed(ps: seq<Parsed>): (r: Result<seq<string>, MergeError>)
    ensures r.Failure? && r.error.BadLine? ==> r.error.index == FirstBad(ps) < |ps|
    ensures r.Failure? && r.error.NoDirectory? ==> '/' !in r.error.key
    ensures r.Success? ==> FirstBad(ps) == |ps|
  {
    match FlushAll(FlushedGroups(ps), Fresh)
    case Failure(e) => Failure(e)
    case Success(w) => if FirstBad(ps) < |ps| then Failure(BadLine(FirstBad(ps))) else Success(w.lines)
  }

  /**
   * The merge of a sorted dump. A bad line is reported only if it is the first
   * line without a tab; a key without '/' is reported only if it has none; the
   * merge succeeds only if every line has a tab.
   */
  function Condense(lines: seq<string>): (r: Result<seq<string>, MergeError>)
    ensures r.Failure? && r.error.BadLine? ==> var k := r.error.index;
      && k < |lines| && '\t' !in Strip(lines[k], Whitespace)
      && forall j :: 0 <= j < k ==> '\t' in Strip(lines[j], Whitespace)
    ensures r.Failure? && r.error.NoDirectory? ==> '/' !in r.error.key
    ensures r.Success? ==> forall j :: 0 <= j < |lines| ==> '\t' in Strip(lines[j], Whitespace)
  {
    var ps := ParseAll(lines);
    var k := FirstBad(ps);
    assert k < |lines| ==> ps[k] == ParseLine(lines[k]);
    assert forall j :: 0 <= j < k ==> ps[j] == ParseLine(lines[j]);
    CondenseParsed(ps)
  }

  /** An empty sorted file gives an empty output. */
  lemma CondenseEmpty()
    ensures Condense([]) == Success([])
  {
  }

  /**
   * With every line well formed and every key holding a '/', the output is the
   * Listing of the maximal runs; the runs' locations, concatenated, are the
   * input's locations in order.
   */
  lemma CondenseListing(ps: seq<Parsed>)
    requires forall j :: 0 <= j < |ps| ==> ps[j].Some?
    requires AllHaveDirectory(Groups(Pairs(ps, |ps|)))
    ensures CondenseParsed(ps) == Success(Listing(Entries(Groups(Pairs(ps, |ps|)))))
    ensures Maximal(Groups(Pairs(ps, |ps|))) && Expand(Groups(Pairs(ps, |ps|))) == Pairs(ps, |ps|)
  {
    assert FirstBad(ps) == |ps|;
    FlushAllListing(Groups(Pairs(ps, |ps|)));
    GroupsSound(Pairs(ps, |ps|));
  }

  /** A line without a tab stops the merge with an error naming it, whatever follows. */
  lemma CondenseBadLineAborts(lines: seq<string>, k: nat)
    requires k < |lines| && '\t' !in Strip(lines[k], Whitespace)
    requires forall j :: 0 <= j < k ==> '\t' in Strip(lines[j], Whitespace)
    requires AllHaveDirectory(Butlast(Groups(Pairs(ParseAll(lines), k))))
    ensures Condense(lines) == Failure(BadLine(k))
  {
    var ps := ParseAll(lines);
    assert FirstBad(ps) == k;
  }

  /** Once flushing a prefix fails, flushing more groups fails the same way. */
  lemma {:induction false} FlushAllFailurePrefix(a: seq<Group>, b: seq<Group>, w: Written)
    requires FlushAll(a, w).Failure?
    ensures FlushAll(a + b, w) == FlushAll(a, w)
    decreases |b|
  {
    if b == [] {
      assert a + b == a;
    } else {
      assert (a + b)[..|a + b| - 1] == a + b[..|b| - 1];
      FlushAllFailurePrefix(a, b[..|b| - 1], w);
    }
  }

  lemma FlushAllSnoc(gs: seq<Group>, g: Group, w: Written)
    ensures FlushAll(gs + [g], w) == match FlushAll(gs, w)
      case Failure(e) => Failure(e)
      case Success(w') => Flush(w', g)
  {
    assert (gs + [g])[..|gs|] == gs;
  }

  lemma PairsSnoc(ps: seq<Parsed>, i: nat)
    requires i < |ps| && forall j :: 0 <= j <= i ==> ps[j].Some?
    ensures Pairs(ps, i + 1) == Pairs(ps, i) + [ps[i].value]
  {
  }

  /** A bad line at index i, reached with every earlier group flushed successfully. */
  lemma CondenseBadLine(ps: seq<Parsed>, i: nat, flushed: seq<Group>, pending: Group, w: Written)
    requires i < |ps| && ps[i].None?
    requires forall j :: 0 <= j < i ==> ps[j].Some?
    requires i == 0 ==> flushed == []
    requires i > 0 ==> Groups(Pairs(ps, i)) == flushed + [pending]
    requires FlushAll(flushed, Fresh) == Success(w)
    ensures CondenseParsed(ps) == Failure(BadLine(i))
  {
    assert FirstBad(ps) == i;
    assert Butlast(Groups(Pairs(ps, i))) == flushed;
  }

  /** Groups closed by line i are among the groups the merge flushes. */
  lemma ClosedAreFlushed(ps: seq<Parsed>, i: nat)
    requires i < |ps| && forall j :: 0 <= j <= i ==> ps[j].Some?
    ensures Butlast(Groups(Pairs(ps, i + 1))) <= FlushedGroups(ps)
  {
    var k := FirstBad(ps);
    PairsPrefix(ps, i + 1, k);
    ClosedGroupsGrow(Pairs(ps, k), i + 1);
    ButlastFlushed(ps);
    PrefixTransitive(Butlast(Groups(Pairs(ps, i + 1))), Butlast(Groups(Pairs(ps, k))), FlushedGroups(ps));
  }

  lemma PairsPrefix(ps: seq<Parsed>, n: nat, k: nat)
    requires n <= k <= |ps| && forall j :: 0 <= j < k ==> ps[j].Some?
    ensures Pairs(ps, k)[..n] == Pairs(ps, n)
  {
  }

  lemma ButlastFlushed(ps: seq<Parsed>)
    ensures Butlast(Groups(Pairs(ps, FirstBad(ps)))) <= FlushedGroups(ps)
  {
  }

  /** Flushing the group closed at line i failed: the merge reports that failure. */
  lemma CondenseFlushFails(ps: seq<Parsed>, i: nat, closed: seq<Group>)
    requires i < |ps| && forall j :: 0 <= j <= i ==> ps[j].Some?
    requires Butlast(Groups(Pairs(ps, i + 1))) == closed
    requires FlushAll(closed, Fresh).Failure?
    ensures CondenseParsed(ps) == Failure(FlushAll(closed, Fresh).error)
  {
    var flushedAll := FlushedGroups(ps);
    ClosedAreFlushed(ps, i);
    assert flushedAll == closed + flushedAll[|closed|..];
    FlushAllFailurePrefix(closed, flushedAll[|closed|..], Fresh);
  }

  /** Every line is well formed: the merge flushes all groups. */
  lemma CondenseAllParsed(ps: seq<Parsed>)
    requires forall j :: 0 <= j < |ps| ==> ps[j].Some?
    ensures CondenseParsed(ps) == match FlushAll(Groups(Pairs(ps, |ps|)), Fresh)
      case Failure(e) => Failure(e)
      case Success(w) => Success(w.lines)
  {
    assert FirstBad(ps) == |ps|;
  }

  /** `write_entry` with its function attribute `last_dn`, appending to `fp_out`. */
  class EntryWriter {
    /** The lines written to the output file so far. */
    var lines: seq<string>
    /** `write_entry.last_dn`: the directory written last, None before the first. */
    var lastDn: Option<string>

    constructor ()
      ensures lines == [] && lastDn == None
    {
      lines := [];
      lastDn := None;
    }

    /** `write_entry(entry, location_list)`; false where the key has no '/' and the unpacking raises. */
    method WriteEntry(entry: string, locations: seq<string>) returns (ok: bool)
      modifies this
      ensures var f := Flush(Written(old(lines), old(lastDn)), Run(entry, locations));
        && ok == f.Success?
        && (ok ==> Written(lines, lastDn) == f.value)
        && (!ok ==> lines == old(lines) && lastDn == old(lastDn))
    {
      var split := RSplitOnce(entry, '/');
      if split.None? {
        return false;
      }
      var (dn, other) := split.value;
      if Some(dn) != lastDn {
        lines := lines + [dn + "\n"];
        lastDn := Some(dn);
      }
      lines := lines + [other + "\t" + Join(",", ShortLocs(locations)) + "\n"];
      ok := true;
    }
  }

  /**
   * The state the loop of `write_dump_condensed` keeps, against the pairs read
   * so far: `lastEntry` is the pending key (None before the first line),
   * `locationList` its locations, and the groups closed before it have been
   * flushed into `w`.
   */
  ghost predicate MergeState(pairs: seq<(string, string)>, flushed: seq<Group>,
                             lastEntry: Option<string>, locationList: seq<string>, w: Written)
  {
    && (lastEntry.None? <==> pairs == [])
    && (lastEntry.Some? ==> lastEntry.value != "")
    && (pairs == [] ==> flushed == [] && locationList == [])
    && (pairs != [] ==> Groups(pairs) == flushed + [Run(lastEntry.value, locationList)])
    && FlushAll(flushed, Fresh) == Success(w)
  }

  /**
   * One turn of the loop of `write_dump_condensed` after the line is unpacked:
   * a changed key flushes the pending group, then the location joins the list.
   * False where flushing the pending group aborts; the pending group is then
   * the one that just closed.
   */
  method MergeLine(out: EntryWriter, lastEntry: Option<string>, locationList: seq<string>,
                   entry: string, location: string, ghost pairs: seq<(string, string)>, ghost flushed: seq<Group>)
    returns (ok: bool, nextEntry: Option<string>, nextList: seq<string>, ghost nextFlushed: seq<Group>)
    modifies out
    requires entry != ""
    requires MergeState(pairs, flushed, lastEntry, locationList, Written(out.lines, out.lastDn))
    ensures ok ==> MergeState(pairs + [(entry, location)], nextFlushed, nextEntry, nextList, Written(out.lines, out.lastDn))
    ensures !ok ==> (
      && lastEntry.Some?
      && Butlast(Groups(pairs + [(entry, location)])) == flushed + [Run(lastEntry.value, locationList)]
      && FlushAll(flushed + [Run(lastEntry.value, locationList)], Fresh) == Failure(NoDirectory(lastEntry.value)))
  {
    ghost var pending := if lastEntry.Some? then Run(lastEntry.value, locationList) else Run("", []);
    nextEntry := lastEntry;
    nextFlushed := flushed;
    nextList := locationList;
    if lastEntry.Some? && lastEntry.value != "" && entry != lastEntry.value {
      ok := out.WriteEntry(lastEntry.value, locationList);
      FlushAllSnoc(flushed, pending, Fresh);
      if !ok {
        assert Butlast(Groups(pairs + [(entry, location)])) == flushed + [pending] by {
          GroupsAdvance(pairs, flushed, pending, flushed + [pending], [], entry, location);
          assert (flushed + [pending] + [Run(entry, [] + [location])])[..|flushed| + 1] == flushed + [pending];
        }
        return;
      }
      nextFlushed := flushed + [pending];
      nextList := [];
    }
    assert Groups(pairs + [(entry, location)]) == nextFlushed + [Run(entry, nextList + [location])] by {
      GroupsAdvance(pairs, flushed, pending, nextFlushed, nextList, entry, location);
    }
    nextList := nextList + [location];
    nextEntry := Some(entry);
    ok := true;
  }

  /**
   * The loop of `write_dump_condensed` over the lines of the sorted file: it
   * keeps the pending key and its locations, flushes the pending group when
   * the key changes and at the end, and stops at the first error.
   */
  method WriteDumpCondensed(lines: seq<string>) returns (r: Result<seq<string>, MergeError>)
    ensures r == Condense(lines)
  {
    ghost var ps := ParseAll(lines);
    var out := new EntryWriter();
    var lastEntry: Option<string> := None;
    var locationList: seq<string> := [];
    ghost var pairs: seq<(string, string)> := [];
    ghost var flushed: seq<Group> := [];
    for i := 0 to |lines|
      invariant forall j :: 0 <= j < i ==> ps[j].Some?
      invariant pairs == Pairs(ps, i)
      invariant MergeState(pairs, flushed, lastEntry, locationList, Written(out.lines, out.lastDn))
    {
      var parsed := ParseLine(lines[i]);
      assert parsed == ps[i];
      if parsed.None? {
        ghost var pending := if lastEntry.Some? then Run(lastEntry.value, locationList) else Run("", []);
        CondenseBadLine(ps, i, flushed, pending, Written(out.lines, out.lastDn));
        return Failure(BadLine(i));
      }
      var (entry, location) := parsed.value;
      assert forall j :: 0 <= j <= i ==> ps[j].Some?;
      assert pairs + [(entry, location)] == Pairs(ps, i + 1) by {
        PairsSnoc(ps, i);
      }
      var ok, nextEntry, nextList, nextFlushed := MergeLine(out, lastEntry, locationList, entry, location, pairs, flushed);
      if !ok {
        CondenseFlushFails(ps, i, flushed + [Run(lastEntry.value, locationList)]);
        return Failure(NoDirectory(lastEntry.value));
      }
      lastEntry, locationList, flushed := nextEntry, nextList, nextFlushed;
      pairs := pairs + [(entry, location)];
    }
    CondenseAllParsed(ps);
    if lastEntry.Some? && lastEntry.value != "" {
      var ok := out.WriteEntry(lastEntry.value, locationList);
      FlushAllSnoc(flushed, Run(lastEntry.value, locationList), Fresh);
      if !ok {
        return Failure(NoDirectory(lastEntry.value));
      }
    }
    r := Success(out.lines);
  }
}

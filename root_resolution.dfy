/**
 * Resolving the configured dCache root directory (for example "/pnfs") to its
 * inumber: `get_root` in chimera-list.py strips '/' from both ends, looks up the
 * first segment under the current parent with `path2inumber`, and recurses on
 * the rest, aborting with the segment's name if a lookup fails.
 */
module RootResolution {
  import opened Base
  import opened PyStr

  /** A Chimera inode number. */
  type Inumber = int

  /**
   * The answers of `path2inumber(parent, name)`: the inumber of the entry `name`
   * in directory `parent`. A pair absent from the map is a query that fails.
   */
  type DirStore = map<(Inumber, string), Inumber>

  function Lookup(store: DirStore, parent: Inumber, name: string): Option<Inumber> {
    if (parent, name) in store then Some(store[(parent, name)]) else None
  }

  /**
   * `get_root(rootpath, parent)`: the inumber of `rootPath` below `parent`, or the
   * name of the segment whose lookup failed. The name looked up is never a path
   * with a '/' in it, and an empty name is looked up only when the path holds
   * nothing but slashes.
   */
  function GetRoot(store: DirStore, rootPath: string, parent: Inumber): (r: Result<Inumber, string>)
    ensures r.Failure? ==> '/' !in r.error
    ensures r.Failure? && r.error == "" ==> forall j :: 0 <= j < |rootPath| ==> rootPath[j] == '/'
    decreases |rootPath|
  {
    var path := Strip(rootPath, {'/'});
    PathHead(rootPath);
    match IndexOf(path, "/")
    case None =>
      (match Lookup(store, parent, path)
       case None => Failure(path)
       case Some(result) => Success(result))
    case Some(i) =>
      match Lookup(store, parent, path[..i])
      case None => Failure(path[..i])
      case Some(result) => GetRoot(store, path[i + 1..], result)
  }

  /**
   * What `get_root` relies on when it splits the stripped path at its first
   * '/': the head is a non-empty name without '/', and the rest is a shorter
   * path that does not end in '/'.
   */
  lemma PathHead(rootPath: string)
    ensures var path := Strip(rootPath, {'/'});
      match IndexOf(path, "/")
      case None =>
        && '/' !in path
        && (path == "" ==> forall j :: 0 <= j < |rootPath| ==> rootPath[j] == '/')
      case Some(i) =>
        && i < |path| <= |rootPath|
        && path[..i] != "" && '/' !in path[..i]
        && path[i + 1..] != "" && path[i + 1..][|path[i + 1..]| - 1] != '/'
  {
    var path := Strip(rootPath, {'/'});
    var found := IndexOf(path, "/");
    IndexOfCharFacts(path, '/');
    if found.None? {
      if path == "" {
        StripEmpty(rootPath, {'/'});
      }
    } else {
      CutAtFirstSlash(path, found.value);
    }
  }

  /** Cutting a path that neither starts nor ends in '/' at its first '/'. */
  lemma CutAtFirstSlash(path: string, i: nat)
    requires i < |path| && path[i] == '/' && forall j :: 0 <= j < i ==> path[j] != '/'
    requires path[0] != '/' && path[|path| - 1] != '/'
    ensures path[..i] != "" && '/' !in path[..i]
    ensures path[i + 1..] != "" && path[i + 1..][|path[i + 1..]| - 1] != '/'
  {
    assert forall j :: 0 <= j < i ==> path[..i][j] == path[j];
    var rest := path[i + 1..];
    assert i + 1 < |path|;
    assert rest[|rest| - 1] == path[|path| - 1];
  }

  /** Only slashes are left out when stripping slashes leaves nothing. */
  lemma StripEmpty(s: string, cs: set<char>)
    requires Strip(s, cs) == ""
    ensures forall j :: 0 <= j < |s| ==> s[j] in cs
  {
    StripCuts(s, cs);
  }

  /** The non-empty strings of `xs`, in order. */
  function NonEmpty(xs: seq<string>): seq<string> {
    if xs == [] then [] else (if xs[0] == "" then [] else [xs[0]]) + NonEmpty(xs[1..])
  }

  lemma {:induction false} NonEmptyAppend(a: seq<string>, b: seq<string>)
    ensures NonEmpty(a + b) == NonEmpty(a) + NonEmpty(b)
  {
    if a == [] {
      assert a + b == b;
    } else {
      var head := if a[0] == "" then [] else [a[0]];
      NonEmptyAppend(a[1..], b);
      assert (a + b)[0] == a[0] && (a + b)[1..] == a[1..] + b;
      assert NonEmpty(a + b) == head + (NonEmpty(a[1..]) + NonEmpty(b));
      assert head + (NonEmpty(a[1..]) + NonEmpty(b)) == (head + NonEmpty(a[1..])) + NonEmpty(b);
    }
  }

  /**
   * The names a root path stands for, read independently of `get_root`'s
   * recursion: the non-empty pieces between slashes, or the single empty name
   * when there are none.
   */
  function Segments(rootPath: string): seq<string> {
    var names := NonEmpty(SplitOn(rootPath, "/"));
    if names == [] then [""] else names
  }

  /** Looking `names` up one after another from `parent`: the left fold of Lookup. */
  function Resolve(store: DirStore, parent: Inumber, names: seq<string>): Result<Inumber, string>
    decreases |names|
  {
    if names == [] then Success(parent)
    else match Lookup(store, parent, names[0])
      case None => Failure(names[0])
      case Some(child) => Resolve(store, child, names[1..])
  }

  /** The names on both sides of a slash are the names of each side. */
  lemma NamesAround(x: string, y: string)
    ensures NonEmpty(SplitOn(x + "/" + y, "/")) == NonEmpty(SplitOn(x, "/")) + NonEmpty(SplitOn(y, "/"))
  {
    assert x + "/" + y == x + ['/'] + y;
    SplitAround(x, '/', y);
    SplitCharIsSplitOn(x + "/" + y, '/');
    SplitCharIsSplitOn(x, '/');
    SplitCharIsSplitOn(y, '/');
    NonEmptyAppend(SplitOn(x, "/"), SplitOn(y, "/"));
  }

  /** A slash with nothing before it names nothing. */
  lemma NamesLeadingSlash(t: string)
    ensures NonEmpty(SplitOn("/" + t, "/")) == NonEmpty(SplitOn(t, "/"))
  {
    var none := "";
    assert NonEmpty(SplitOn(none, "/")) == [] by { assert SplitOn(none, "/") == [none]; }
    NamesAround(none, t);
    assert none + "/" + t == "/" + t;
  }

  /** A slash with nothing after it names nothing. */
  lemma NamesTrailingSlash(t: string)
    ensures NonEmpty(SplitOn(t + "/", "/")) == NonEmpty(SplitOn(t, "/"))
  {
    var none := "";
    assert NonEmpty(SplitOn(none, "/")) == [] by { assert SplitOn(none, "/") == [none]; }
    NamesAround(t, none);
    assert t + "/" + none == t + "/";
  }

  /** Leading slashes only add empty pieces. */
  lemma {:induction false} StripLeftKeepsNames(s: string)
    ensures NonEmpty(SplitOn(StripLeft(s, {'/'}), "/")) == NonEmpty(SplitOn(s, "/"))
  {
    if |s| > 0 && s[0] == '/' {
      var t := s[1..];
      assert s == "/" + t;
      calc {
        NonEmpty(SplitOn(StripLeft(s, {'/'}), "/"));
        NonEmpty(SplitOn(StripLeft(t, {'/'}), "/"));
        { StripLeftKeepsNames(t); }
        NonEmpty(SplitOn(t, "/"));
        { NamesLeadingSlash(t); }
        NonEmpty(SplitOn("/" + t, "/"));
      }
    }
  }

  /** Trailing slashes only add empty pieces. */
  lemma {:induction false} StripRightKeepsNames(s: string)
    ensures NonEmpty(SplitOn(StripRight(s, {'/'}), "/")) == NonEmpty(SplitOn(s, "/"))
  {
    if |s| > 0 && s[|s| - 1] == '/' {
      var t := s[..|s| - 1];
      assert s == t + "/";
      calc {
        NonEmpty(SplitOn(StripRight(s, {'/'}), "/"));
        NonEmpty(SplitOn(StripRight(t, {'/'}), "/"));
        { StripRightKeepsNames(t); }
        NonEmpty(SplitOn(t, "/"));
        { NamesTrailingSlash(t); }
        NonEmpty(SplitOn(t + "/", "/"));
      }
    }
  }

  /** A path that does not end in a slash names at least one segment. */
  lemma {:induction false} NamesNotEmpty(s: string)
    requires |s| > 0 && s[|s| - 1] != '/'
    ensures NonEmpty(SplitOn(s, "/")) != []
    decreases |s|
  {
    IndexOfCharFacts(s, '/');
    if IndexOf(s, "/").Some? {
      var i := IndexOf(s, "/").value;
      var rest := s[i + 1..];
      assert rest[|rest| - 1] == s[|s| - 1];
      NamesNotEmpty(rest);
      NonEmptyAppend([s[..i]], SplitOn(rest, "/"));
    }
  }

  /**
   * `get_root` is the left fold of lookups over the path's segments, starting
   * from the given parent (in the script, `root_inumber_magic`).
   */
  lemma {:induction false} GetRootIsFold(store: DirStore, rootPath: string, parent: Inumber)
    ensures GetRoot(store, rootPath, parent) == Resolve(store, parent, Segments(rootPath))
    decreases |rootPath|
  {
    var path := Strip(rootPath, {'/'});
    var found := IndexOf(path, "/");
    if found.None? {
      SegmentsUncut(rootPath);
      var one: seq<string> := [path];
      assert one[0] == path && one[1..] == [];
      assert Resolve(store, parent, one) == match Lookup(store, parent, path)
        case None => Failure(path)
        case Some(result) => Success(result);
    } else {
      var i := found.value;
      SegmentsCut(rootPath);
      var rootDir, rest := path[..i], path[i + 1..];
      var names := [rootDir] + Segments(rest);
      assert names[0] == rootDir && names[1..] == Segments(rest);
      PathHead(rootPath);
      match Lookup(store, parent, rootDir)
      case None =>
      case Some(result) =>
        GetRootIsFold(store, rest, result);
        assert GetRoot(store, rootPath, parent) == GetRoot(store, rest, result);
    }
  }

  /** Stripping the outer slashes keeps the segments. */
  lemma StripKeepsNames(rootPath: string)
    ensures NonEmpty(SplitOn(Strip(rootPath, {'/'}), "/")) == NonEmpty(SplitOn(rootPath, "/"))
  {
    StripLeftKeepsNames(rootPath);
    StripRightKeepsNames(StripLeft(rootPath, {'/'}));
  }

  /** A stripped path without '/' is the one segment (the empty name when nothing is left). */
  lemma SegmentsUncut(rootPath: string)
    requires IndexOf(Strip(rootPath, {'/'}), "/").None?
    ensures Segments(rootPath) == [Strip(rootPath, {'/'})]
  {
    var path := Strip(rootPath, {'/'});
    StripKeepsNames(rootPath);
    assert SplitOn(path, "/") == [path];
    assert NonEmpty([path]) == (if path == "" then [] else [path]) + NonEmpty([]);
  }

  /** A stripped path with a '/' has its head as first segment, then the segments of the rest. */
  lemma SegmentsCut(rootPath: string)
    requires IndexOf(Strip(rootPath, {'/'}), "/").Some?
    ensures var path, i := Strip(rootPath, {'/'}), IndexOf(Strip(rootPath, {'/'}), "/").value;
      Segments(rootPath) == [path[..i]] + Segments(path[i + 1..])
  {
    var path := Strip(rootPath, {'/'});
    var i := IndexOf(path, "/").value;
    PathHead(rootPath);
    StripKeepsNames(rootPath);
    var rootDir, rest := path[..i], path[i + 1..];
    assert SplitOn(path, "/") == [rootDir] + SplitOn(rest, "/");
    NonEmptyAppend([rootDir], SplitOn(rest, "/"));
    assert NonEmpty([rootDir]) == [rootDir] + NonEmpty([]);
    NamesNotEmpty(rest);
  }

  /** Resolving a concatenation resolves the first part, then the second from where it ended. */
  lemma {:induction false} ResolveAppend(store: DirStore, parent: Inumber, a: seq<string>, b: seq<string>)
    ensures Resolve(store, parent, a + b) ==
      match Resolve(store, parent, a)
      case Failure(e) => Failure(e)
      case Success(q) => Resolve(store, q, b)
    decreases |a|
  {
    if a == [] {
      assert a + b == b;
    } else {
      assert (a + b)[0] == a[0] && (a + b)[1..] == a[1..] + b;
      match Lookup(store, parent, a[0])
      case None =>
      case Some(child) => ResolveAppend(store, child, a[1..], b);
    }
  }

  /**
   * Resolution aborts exactly at the first name whose lookup fails, and the
   * error names it: if the names before index k resolve to q and the k-th is
   * not found under q, the result is Failure(names[k]) ...
   */
  lemma ResolveFailsAt(store: DirStore, parent: Inumber, names: seq<string>, k: nat, q: Inumber)
    requires k < |names|
    requires Resolve(store, parent, names[..k]) == Success(q)
    requires Lookup(store, q, names[k]).None?
    ensures Resolve(store, parent, names) == Failure(names[k])
  {
    assert names == names[..k] + names[k..];
    ResolveAppend(store, parent, names[..k], names[k..]);
  }

  /** ... and every failure is of that form. */
  lemma {:induction false} ResolveFailureNamesSegment(store: DirStore, parent: Inumber, names: seq<string>)
    requires Resolve(store, parent, names).Failure?
    ensures exists k :: (0 <= k < |names| && Resolve(store, parent, names[..k]).Success?
                         && Lookup(store, Resolve(store, parent, names[..k]).value, names[k]).None?
                         && Resolve(store, parent, names).error == names[k])
    decreases |names|
  {
    assert names[..0] == [];
    match Lookup(store, parent, names[0])
    case None =>
    case Some(child) =>
      ResolveFailureNamesSegment(store, child, names[1..]);
      var k :| 0 <= k < |names[1..]| && Resolve(store, child, names[1..][..k]).Success?
        && Lookup(store, Resolve(store, child, names[1..][..k]).value, names[1..][k]).None?
        && Resolve(store, child, names[1..]).error == names[1..][k];
      assert names[..k + 1] == [names[0]] + names[1..][..k];
      assert Resolve(store, parent, names[..k + 1]) == Resolve(store, child, names[1..][..k]);
  }

  /** Leading and trailing slashes are ignored. */
  lemma GetRootIgnoresOuterSlashes(store: DirStore, p: string, parent: Inumber)
    ensures GetRoot(store, "/" + p, parent) == GetRoot(store, p, parent)
    ensures GetRoot(store, p + "/", parent) == GetRoot(store, p, parent)
  {
    GetRootIsFold(store, "/" + p, parent);
    GetRootIsFold(store, p + "/", parent);
    GetRootIsFold(store, p, parent);
    NamesLeadingSlash(p);
    NamesTrailingSlash(p);
  }

  /** An empty segment collapses: "a//b" resolves like "a/b". */
  lemma GetRootCollapsesEmptySegments(store: DirStore, a: string, b: string, parent: Inumber)
    ensures GetRoot(store, a + "//" + b, parent) == GetRoot(store, a + "/" + b, parent)
  {
    assert Segments(a + "//" + b) == Segments(a + "/" + b) by {
      assert a + "//" + b == a + "/" + ("/" + b);
      NamesAround(a, "/" + b);
      NamesLeadingSlash(b);
      NamesAround(a, b);
    }
    GetRootIsFold(store, a + "//" + b, parent);
    GetRootIsFold(store, a + "/" + b, parent);
  }

  /** A name without a slash is a single segment. */
  lemma SingleSegment(n: string)
    requires n != "" && '/' !in n
    ensures NonEmpty(SplitOn(n, "/")) == [n]
  {
    IndexOfCharFacts(n, '/');
    assert SplitOn(n, "/") == [n];
  }

  /**
   * A namespace holding directory `nb` inside directory `na` below `top` (a
   * directory other than `na` itself): the path "na/nb" resolves to nb's inumber.
   */
  lemma GetRootFindsNested(top: Inumber, a: Inumber, b: Inumber, na: string, nb: string)
    requires top != a && na != "" && nb != "" && '/' !in na && '/' !in nb
    ensures GetRoot(map[(top, na) := a, (a, nb) := b], na + "/" + nb, top) == Success(b)
  {
    var store := map[(top, na) := a, (a, nb) := b];
    assert Segments(na + "/" + nb) == [na, nb] by {
      SingleSegment(na);
      SingleSegment(nb);
      NamesAround(na, nb);
    }
    assert Resolve(store, a, [nb]) == Success(b) by {
      assert Lookup(store, a, nb) == Some(b);
      assert [nb][1..] == [];
    }
    assert Resolve(store, top, [na, nb]) == Success(b) by {
      assert Lookup(store, top, na) == Some(a);
      assert [na, nb][0] == na && [na, nb][1..] == [nb];
    }
    GetRootIsFold(store, na + "/" + nb, top);
  }

  /** In the same namespace, "na/nx" for a name nx not in `na` fails naming nx. */
  lemma GetRootNamesMissing(top: Inumber, a: Inumber, b: Inumber, na: string, nb: string, nx: string)
    requires top != a && na != "" && nx != "" && nb != nx && '/' !in na && '/' !in nx
    ensures GetRoot(map[(top, na) := a, (a, nb) := b], na + "/" + nx, top) == Failure(nx)
  {
    var store := map[(top, na) := a, (a, nb) := b];
    assert Segments(na + "/" + nx) == [na, nx] by {
      SingleSegment(na);
      SingleSegment(nx);
      NamesAround(na, nx);
    }
    assert Resolve(store, a, [nx]) == Failure(nx) by {
      assert Lookup(store, a, nx) == None;
    }
    assert Resolve(store, top, [na, nx]) == Failure(nx) by {
      assert Lookup(store, top, na) == Some(a);
      assert [na, nx][0] == na && [na, nx][1..] == [nx];
    }
    GetRootIsFold(store, na + "/" + nx, top);
  }
}

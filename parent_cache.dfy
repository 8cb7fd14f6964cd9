/**
 * `search_parent` and its dictionary `dirs` in chimera-list.py: parent inumbers
 * are resolved to absolute paths with the store function `inumber2path`, and
 * every answer, failures included, is kept in `dirs` for the rest of the run.
 */
module ParentCache {
  import opened Base
  import RootResolution

  type Inumber = RootResolution.Inumber

  /** The answers of `inumber2path(i)`; an inumber absent from the map is a query that fails. */
  type PathStore = map<Inumber, string>

  /** The contents of `dirs`: an inumber maps to its path, or to None once its query failed. */
  type Dirs = map<Inumber, Option<string>>

  /** One query of the store; a failed query is None. */
  function Query(store: PathStore, i: Inumber): Option<string> {
    if i in store then Some(store[i]) else None
  }

  /**
   * The path `search_parent(i)` stands for, independent of the cache's state:
   * the configured root path for the root inumber, the store's answer otherwise.
   */
  function Expected(root: Inumber, rootPath: string, store: PathStore, i: Inumber): Option<string> {
    if i == root then Some(rootPath) else Query(store, i)
  }

  /** `dirs` holds the configured root and agrees with Expected on every key. */
  predicate Faithful(dirs: Dirs, root: Inumber, rootPath: string, store: PathStore) {
    && root in dirs
    && forall k :: k in dirs ==> dirs[k] == Expected(root, rootPath, store, k)
  }

  /** The outcome of one call: what it returns, the cache afterwards, and whether it asked the store. */
  datatype Step = Step(result: Option<string>, dirs: Dirs, queried: bool)

  /**
   * One call `search_parent(i)` on the cache `dirs`: a hit returns the cached
   * value; a miss asks the store once, keeps a found path, and `setdefault`
   * records None for a failed query. Entries already present never change.
   */
  function Search(dirs: Dirs, store: PathStore, i: Inumber): (s: Step)
    ensures i in s.dirs && s.result == s.dirs[i]
    ensures s.dirs.Keys == dirs.Keys + {i}
    ensures forall k :: k in dirs ==> s.dirs[k] == dirs[k]
    ensures s.queried <==> i !in dirs
    ensures s.queried ==> s.result == Query(store, i)
  {
    var queried := i !in dirs;
    var stored := if queried && Query(store, i).Some? then dirs[i := Query(store, i)] else dirs;
    var after := if i in stored then stored else stored[i := None];
    Step(after[i], after, queried)
  }

  /** The cache is transparent: a faithful cache answers Expected and stays faithful. */
  lemma SearchFaithful(dirs: Dirs, root: Inumber, rootPath: string, store: PathStore, i: Inumber)
    requires Faithful(dirs, root, rootPath, store)
    ensures Search(dirs, store, i).result == Expected(root, rootPath, store, i)
    ensures Faithful(Search(dirs, store, i).dirs, root, rootPath, store)
  {
  }

  /** A failed query is cached as None: the next call for the same inumber is a hit returning None. */
  lemma SearchFailureCached(dirs: Dirs, store: PathStore, i: Inumber)
    requires i !in dirs && Query(store, i).None?
    ensures Search(dirs, store, i).result == None
    ensures Search(Search(dirs, store, i).dirs, store, i) == Step(None, Search(dirs, store, i).dirs, false)
  {
  }

  /** No inumber occurs twice in `q`. */
  predicate NoRepeats(q: seq<Inumber>) {
    forall a, b :: 0 <= a < b < |q| ==> q[a] != q[b]
  }

  /** The results, the final cache and the inumbers queried, over a sequence of calls. */
  datatype Calls = Calls(results: seq<Option<string>>, dirs: Dirs, queries: seq<Inumber>)

  /** `search_parent` called on each of `ids` in turn, starting from the cache `dirs`. */
  function SearchAll(dirs: Dirs, store: PathStore, ids: seq<Inumber>): (run: Calls)
    ensures |run.results| == |ids|
    ensures dirs.Keys <= run.dirs.Keys
  {
    if ids == [] then Calls([], dirs, [])
    else
      var prev := SearchAll(dirs, store, ids[..|ids| - 1]);
      var i := ids[|ids| - 1];
      var s := Search(prev.dirs, store, i);
      Calls(prev.results + [s.result], s.dirs, prev.queries + if s.queried then [i] else [])
  }

  /** Over any sequence of calls, a faithful cache returns exactly the Expected path each time. */
  lemma {:induction false} SearchAllFaithful(dirs: Dirs, root: Inumber, rootPath: string, store: PathStore, ids: seq<Inumber>)
    requires Faithful(dirs, root, rootPath, store)
    ensures Faithful(SearchAll(dirs, store, ids).dirs, root, rootPath, store)
    ensures forall j :: 0 <= j < |ids| ==> SearchAll(dirs, store, ids).results[j] == Expected(root, rootPath, store, ids[j])
  {
    if ids != [] {
      var prefix := ids[..|ids| - 1];
      SearchAllFaithful(dirs, root, rootPath, store, prefix);
      SearchFaithful(SearchAll(dirs, store, prefix).dirs, root, rootPath, store, ids[|ids| - 1]);
    }
  }

  /**
   * The store is asked at most once per inumber, whether the query succeeds or
   * fails, and never about an inumber the cache started with (so never about the
   * preloaded root); the inumbers asked about are exactly the new keys.
   */
  lemma {:induction false} SearchAllQueriesOnce(dirs: Dirs, store: PathStore, ids: seq<Inumber>)
    ensures NoRepeats(SearchAll(dirs, store, ids).queries)
    ensures forall k :: 0 <= k < |SearchAll(dirs, store, ids).queries| ==> SearchAll(dirs, store, ids).queries[k] !in dirs
    ensures forall k :: k in SearchAll(dirs, store, ids).queries <==> k in SearchAll(dirs, store, ids).dirs && k !in dirs
  {
    if ids != [] {
      var prev := SearchAll(dirs, store, ids[..|ids| - 1]);
      var i := ids[|ids| - 1];
      SearchAllQueriesOnce(dirs, store, ids[..|ids| - 1]);
      if i !in prev.dirs {
        assert i !in prev.queries && i !in dirs;
        var q := prev.queries + [i];
        assert q[|q| - 1] == i;
        assert SearchAll(dirs, store, ids).queries == q;
        forall a, b | 0 <= a < b < |q| ensures q[a] != q[b] {
          assert q[a] == prev.queries[a] && prev.queries[a] in prev.queries;
          if b < |q| - 1 {
            assert q[b] == prev.queries[b];
          } else {
            assert q[b] == i;
          }
        }
      } else {
        assert SearchAll(dirs, store, ids).queries == prev.queries;
      }
    }
  }

  /** Once `dirs` has a key, its value never changes for the rest of the run. */
  lemma {:induction false} SearchAllStable(dirs: Dirs, store: PathStore, ids: seq<Inumber>, m: nat)
    requires m <= |ids|
    ensures var before, after := SearchAll(dirs, store, ids[..m]).dirs, SearchAll(dirs, store, ids).dirs;
      forall k :: k in before ==> k in after && after[k] == before[k]
    decreases |ids|
  {
    if m < |ids| {
      SearchAllStable(dirs, store, ids[..|ids| - 1], m);
      assert ids[..|ids| - 1][..m] == ids[..m];
    } else {
      assert ids[..m] == ids;
    }
  }

  /** The dictionary `dirs` of the script, with the store it queries. */
  class ParentPathCache {
    const root: Inumber
    const rootPath: string
    const store: PathStore
    var dirs: Dirs
    /** Every inumber the store has been asked about, in order. */
    ghost var queries: seq<Inumber>

    ghost predicate Valid()
      reads this
    {
      && Faithful(dirs, root, rootPath, store)
      && NoRepeats(queries)
      && (forall k :: k in queries <==> k in dirs && k != root)
    }

    /** `dirs = {root_inumber: opts.root}` */
    constructor (root: Inumber, rootPath: string, store: PathStore)
      ensures Valid()
      ensures this.root == root && this.rootPath == rootPath && this.store == store
      ensures dirs == map[root := Some(rootPath)] && queries == []
    {
      this.root := root;
      this.rootPath := rootPath;
      this.store := store;
      dirs := map[root := Some(rootPath)];
      queries := [];
    }

    /** `search_parent(inumber)`: the path of `i`, asking the store only on a miss. */
    method SearchParent(i: Inumber) returns (r: Option<string>)
      requires Valid()
      modifies this
      ensures Valid()
      ensures r == Expected(root, rootPath, store, i)
      ensures var s := Search(old(dirs), store, i);
        r == s.result && dirs == s.dirs && queries == old(queries) + if s.queried then [i] else []
    {
      if i !in dirs {
        var entry := Query(store, i);
        queries := queries + [i];
        if entry.Some? {
          dirs := dirs[i := entry];
        }
      }
      if i !in dirs {
        dirs := dirs[i := None];
      }
      r := dirs[i];
    }
  }
}

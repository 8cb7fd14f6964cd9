/**
 * Grouping a stream of (key, value) pairs into maximal runs of equal keys, as
 * the merge loop of `write_dump_condensed` in chimera-list.py does with the
 * (entry, location) pairs of the sorted dump. Nothing here looks inside a key:
 * keys are only compared for equality.
 */
module Runs {

  /** A run: a key and the values read with it, in input order. */
  datatype Run<K, L> = Run(key: K, locations: seq<L>)

  /**
   * The maximal runs of consecutive pairs with equal keys, built the way the
   * loop builds them: a pair joins the last run if its key is that run's key,
   * and opens a new run otherwise.
   */
  function Groups<K(==), L>(pairs: seq<(K, L)>): (r: seq<Run<K, L>>)
  {
    if pairs == [] then []
    else
      var gs := Groups(pairs[..|pairs| - 1]);
      var p := pairs[|pairs| - 1];
      if gs != [] && gs[|gs| - 1].key == p.0 then
        gs[..|gs| - 1] + [Run(p.0, gs[|gs| - 1].locations + [p.1])]
      else
        gs + [Run(p.0, [p.1])]
  }

  /** A run's (key, value) pairs. */
  function Members<K, L>(g: Run<K, L>): (r: seq<(K, L)>)
    ensures |r| == |g.locations| && forall j :: 0 <= j < |r| ==> r[j] == (g.key, g.locations[j])
  {
    seq(|g.locations|, j requires 0 <= j < |g.locations| => (g.key, g.locations[j]))
  }

  /** The pairs the runs stand for, in order. */
  function Expand<K, L>(gs: seq<Run<K, L>>): seq<(K, L)> {
    if gs == [] then [] else Expand(gs[..|gs| - 1]) + Members(gs[|gs| - 1])
  }

  /** Every run is non-empty and no two neighbouring runs share a key. */
  predicate Maximal<K(==), L>(gs: seq<Run<K, L>>) {
    && (forall j :: 0 <= j < |gs| ==> gs[j].locations != [])
    && (forall j :: 0 < j < |gs| ==> gs[j - 1].key != gs[j].key)
  }

  /** All runs but the last: the ones a streaming reader has closed. */
  function Butlast<T>(gs: seq<T>): (r: seq<T>)
    ensures r <= gs && (gs != [] ==> |r| == |gs| - 1)
  {
    if gs == [] then [] else gs[..|gs| - 1]
  }

  lemma PrefixTransitive<T>(a: seq<T>, b: seq<T>, c: seq<T>)
    requires a <= b && b <= c
    ensures a <= c
  {
    assert a == b[..|a|] == c[..|b|][..|a|];
  }

  lemma ExpandSnoc<K, L>(gs: seq<Run<K, L>>, g: Run<K, L>)
    ensures Expand(gs + [g]) == Expand(gs) + Members(g)
  {
    assert (gs + [g])[..|gs|] == gs;
  }

  lemma MembersSnoc<K, L>(key: K, locations: seq<L>, location: L)
    ensures Members(Run(key, locations + [location])) == Members(Run(key, locations)) + [(key, location)]
  {
  }

  /** Appending a non-empty run with a new key keeps the runs maximal. */
  lemma MaximalSnoc<K, L>(gs: seq<Run<K, L>>, g: Run<K, L>)
    requires Maximal(gs) && g.locations != []
    requires gs != [] ==> gs[|gs| - 1].key != g.key
    ensures Maximal(gs + [g])
  {
    var r := gs + [g];
    forall j | 0 < j < |r| ensures r[j - 1].key != r[j].key {
      if j < |gs| {
        assert r[j - 1] == gs[j - 1] && r[j] == gs[j];
      }
    }
  }

  /** Replacing the last run by a non-empty one with the same key keeps the runs maximal. */
  lemma MaximalGrowLast<K, L>(gs: seq<Run<K, L>>, g: Run<K, L>)
    requires Maximal(gs) && gs != [] && g.locations != [] && g.key == gs[|gs| - 1].key
    ensures Maximal(gs[..|gs| - 1] + [g])
  {
    var r := gs[..|gs| - 1] + [g];
    forall j | 0 < j < |r| ensures r[j - 1].key != r[j].key {
      assert r[j - 1] == gs[j - 1] && r[j].key == gs[j].key;
    }
  }

  /**
   * Grouping loses and reorders nothing and yields maximal runs: expanding the
   * runs gives back the input pairs, so concatenating the runs' value lists
   * gives the input's values in order.
   */
  lemma {:induction false} GroupsSound<K, L>(pairs: seq<(K, L)>)
    ensures Maximal(Groups(pairs)) && Expand(Groups(pairs)) == pairs
  {
    if pairs != [] {
      var init := pairs[..|pairs| - 1];
      var gs := Groups(init);
      var p := pairs[|pairs| - 1];
      GroupsSound(init);
      assert pairs == init + [p];
      if gs != [] && gs[|gs| - 1].key == p.0 {
        assert Groups(pairs) == gs[..|gs| - 1] + [Run(p.0, gs[|gs| - 1].locations + [p.1])];
        SoundGrowLast(gs, p);
      } else {
        var single := Run(p.0, [p.1]);
        assert Groups(pairs) == gs + [single];
        ExpandSnoc(gs, single);
        MaximalSnoc(gs, single);
      }
    }
  }

  /** A pair with the last run's key extends that run, keeping the runs maximal and their expansion in step. */
  lemma SoundGrowLast<K, L>(gs: seq<Run<K, L>>, p: (K, L))
    requires Maximal(gs) && gs != [] && gs[|gs| - 1].key == p.0
    ensures var grown := gs[..|gs| - 1] + [Run(p.0, gs[|gs| - 1].locations + [p.1])];
      Maximal(grown) && Expand(grown) == Expand(gs) + [p]
  {
    var last := gs[|gs| - 1];
    var front := gs[..|gs| - 1];
    var grown := Run(p.0, last.locations + [p.1]);
    assert gs == front + [last];
    ExpandSnoc(front, last);
    ExpandSnoc(front, grown);
    MembersSnoc(p.0, last.locations, p.1);
    MaximalGrowLast(gs, grown);
  }

  /** Reading one more pair, as the definition of Groups states it for `pairs + [p]`. */
  lemma GroupsSnoc<K, L>(pairs: seq<(K, L)>, p: (K, L))
    ensures var gs := Groups(pairs);
      Groups(pairs + [p]) ==
        if gs != [] && gs[|gs| - 1].key == p.0 then gs[..|gs| - 1] + [Run(p.0, gs[|gs| - 1].locations + [p.1])]
        else gs + [Run(p.0, [p.1])]
  {
    var next := pairs + [p];
    assert next[..|next| - 1] == pairs && next[|next| - 1] == p;
  }

  lemma MaximalButlast<K, L>(gs: seq<Run<K, L>>)
    requires Maximal(gs) && gs != []
    ensures Maximal(gs[..|gs| - 1])
  {
    var r := gs[..|gs| - 1];
    assert forall j :: 0 <= j < |r| ==> r[j] == gs[j];
  }

  /** The runs are the only maximal runs of the pairs: any maximal grouping of them is Groups. */
  lemma {:induction false} GroupsUnique<K, L>(pairs: seq<(K, L)>, gs: seq<Run<K, L>>)
    requires Maximal(gs) && Expand(gs) == pairs
    ensures gs == Groups(pairs)
    decreases |pairs|
  {
    if gs == [] {
      return;
    }
    var m := |gs|;
    var g := gs[m - 1];
    var prev := gs[..m - 1];
    assert gs == prev + [g];
    ExpandSnoc(prev, g);
    var loc := g.locations[|g.locations| - 1];
    var shorter := Run(g.key, g.locations[..|g.locations| - 1]);
    assert g.locations == shorter.locations + [loc];
    MembersSnoc(g.key, shorter.locations, loc);
    var init := pairs[..|pairs| - 1];
    assert pairs == init + [(g.key, loc)];
    if |g.locations| == 1 {
      assert Members(g) == [(g.key, loc)];
      assert Expand(prev) == init;
      MaximalButlast(gs);
      GroupsUnique(init, prev);
      assert g == Run(g.key, [loc]);
      OpenRun(init, g.key, loc);
    } else {
      ExpandSnoc(prev, shorter);
      assert Expand(prev + [shorter]) == init;
      MaximalGrowLast(gs, shorter);
      GroupsUnique(init, prev + [shorter]);
      GrowRun(init, prev, shorter, loc);
    }
  }

  /** A pair whose key differs from the last run's opens a run of its own. */
  lemma OpenRun<K, L>(pairs: seq<(K, L)>, key: K, location: L)
    requires Maximal(Groups(pairs) + [Run(key, [location])])
    ensures Groups(pairs + [(key, location)]) == Groups(pairs) + [Run(key, [location])]
  {
    var gs := Groups(pairs);
    GroupsSnoc(pairs, (key, location));
    if gs != [] {
      var r := gs + [Run(key, [location])];
      assert r[|gs| - 1] == gs[|gs| - 1] && r[|gs|].key == key;
      assert r[|gs| - 1].key != r[|gs|].key;
    }
  }

  /** A pair with the last run's key joins that run. */
  lemma GrowRun<K, L>(pairs: seq<(K, L)>, prev: seq<Run<K, L>>, last: Run<K, L>, location: L)
    requires Groups(pairs) == prev + [last]
    ensures Groups(pairs + [(last.key, location)]) == prev + [Run(last.key, last.locations + [location])]
  {
    GroupsSnoc(pairs, (last.key, location));
    assert (prev + [last])[..|prev|] == prev;
  }

  /** Reading more pairs never changes the runs already closed. */
  lemma {:induction false} ClosedGroupsGrow<K, L>(pairs: seq<(K, L)>, i: nat)
    requires i <= |pairs|
    ensures Butlast(Groups(pairs[..i])) <= Butlast(Groups(pairs))
    decreases |pairs| - i
  {
    if i < |pairs| {
      var init := pairs[..|pairs| - 1];
      assert init[..i] == pairs[..i];
      ClosedGroupsGrow(init, i);
      var gs := Groups(init);
      var p := pairs[|pairs| - 1];
      if gs != [] {
        if gs[|gs| - 1].key == p.0 {
          var grown := gs[..|gs| - 1] + [Run(p.0, gs[|gs| - 1].locations + [p.1])];
          assert Groups(pairs) == grown;
          assert Butlast(grown) == Butlast(gs);
        } else {
          assert Groups(pairs) == gs + [Run(p.0, [p.1])];
          assert Butlast(gs + [Run(p.0, [p.1])]) == gs;
        }
      }
    } else {
      assert pairs[..i] == pairs;
    }
  }

  /**
   * The loop's view of Groups: the runs of the pairs read so far are the
   * closed runs `flushed0` and the pending run. Reading (key, location)
   * extends the pending run when the key is the same, and otherwise closes it
   * and opens a run of its own; either way the runs are then `flushed` and
   * the run of `key` with `locations` and the new location.
   */
  lemma GroupsAdvance<K, L>(pairs: seq<(K, L)>, flushed0: seq<Run<K, L>>, pending: Run<K, L>,
                            flushed: seq<Run<K, L>>, locations: seq<L>, key: K, location: L)
    requires pairs == [] ==> flushed0 == [] && flushed == [] && locations == []
    requires pairs != [] ==> Groups(pairs) == flushed0 + [pending]
    requires pairs != [] && key == pending.key ==> flushed == flushed0 && locations == pending.locations
    requires pairs != [] && key != pending.key ==> flushed == flushed0 + [pending] && locations == []
    ensures Groups(pairs + [(key, location)]) == flushed + [Run(key, locations + [location])]
  {
    var next := pairs + [(key, location)];
    assert next[..|next| - 1] == pairs && next[|next| - 1] == (key, location);
    if pairs == [] {
      assert locations + [location] == [location];
    } else {
      var gs := flushed0 + [pending];
      assert gs[..|gs| - 1] == flushed0 && gs[|gs| - 1] == pending;
      if key != pending.key {
        assert locations + [location] == [location];
      }
    }
  }

  /** Two pairs with one key and a third with another: two runs, the first holding both values in order. */
  lemma GroupsTwoRuns<K, L>(a: K, b: K, l1: L, l2: L, l3: L)
    requires a != b
    ensures Groups([(a, l1), (a, l2), (b, l3)]) == [Run(a, [l1, l2]), Run(b, [l3])]
  {
    var one, two, three := [(a, l1)], [(a, l1), (a, l2)], [(a, l1), (a, l2), (b, l3)];
    assert [] + [(a, l1)] == one && one + [(a, l2)] == two && two + [(b, l3)] == three;
    GroupsSnoc([], (a, l1));
    var g1 := Groups(one);
    assert g1 == [Run(a, [l1])];
    GroupsSnoc(one, (a, l2));
    var g2 := Groups(two);
    assert g2 == g1[..0] + [Run(a, g1[0].locations + [l2])];
    assert [l1] + [l2] == [l1, l2];
    assert g2 == [Run(a, [l1, l2])];
    GroupsSnoc(two, (b, l3));
    assert Groups(three) == g2 + [Run(b, [l3])];
  }
}

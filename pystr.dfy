/**
 * The few Python 2 `str` operations the dump script relies on: `in`,
 * `split(sep)`, `rsplit(c, 1)`, `strip(chars)`, `strip()` and `sep.join(xs)`.
 * The script never calls `find`; IndexOf is the first-occurrence search that
 * `in` and `split` are modelled with.
 *
 * Splitting at a one-character separator has two forms here: SplitOn (with
 * IndexOf) for any separator, as `split('/')` and `split('group=')` use it,
 * and SplitChar (with FindChar), which scans for a single character and is
 * the form the read-back lemmas are proved in. FindCharIsIndexOf and
 * SplitCharIsSplitOn show that the two agree.
 */
module PyStr {
  import opened Base

  /** `p` occurs in `s` starting at index `j`. */
  predicate Occurs(s: string, p: string, j: int) {
    0 <= j && j + |p| <= |s| && s[j..j + |p|] == p
  }

  /** Python's `p in s`, stated as an occurrence at some index. */
  ghost predicate Contains(s: string, p: string) {
    exists j :: Occurs(s, p, j)
  }

  /** The first index where `p` occurs in `s`, or None: the search behind `in` and `split`. */
  function IndexOf(s: string, p: string): (r: Option<nat>)
    ensures r.Some? ==> Occurs(s, p, r.value) && forall j :: 0 <= j < r.value ==> !Occurs(s, p, j)
    ensures r.None? <==> !Contains(s, p)
    decreases |s|
  {
    if |p| <= |s| && s[..|p|] == p then Some(0)
    else if |s| == 0 then None
    else
      var r := IndexOf(s[1..], p);
      OccursShift(s, p);
      if r.None? then None else Some(r.value + 1)
  }

  /** Past the first index, the occurrences in `s` are those in `s[1..]`, one index on. */
  lemma OccursShift(s: string, p: string)
    requires |s| > 0 && !Occurs(s, p, 0)
    ensures forall j :: 1 <= j ==> (Occurs(s[1..], p, j - 1) <==> Occurs(s, p, j))
    ensures Contains(s, p) <==> Contains(s[1..], p)
  {
    forall j | 1 <= j ensures Occurs(s[1..], p, j - 1) <==> Occurs(s, p, j) {
      if j + |p| <= |s| { assert s[1..][j - 1..j - 1 + |p|] == s[j..j + |p|]; }
    }
    if Contains(s, p) {
      var j :| Occurs(s, p, j);
      assert Occurs(s[1..], p, j - 1);
    }
    if Contains(s[1..], p) {
      var j :| Occurs(s[1..], p, j);
      assert Occurs(s, p, j + 1);
    }
  }

  /** An occurrence in a piece is an occurrence in any text built around it. */
  lemma OccursWithin(a: string, s: string, b: string, p: string, j: int)
    requires Occurs(s, p, j)
    ensures Occurs(a + s + b, p, |a| + j)
  {
    var t := a + s + b;
    assert t[|a| + j..|a| + j + |p|] == s[j..j + |p|];
  }

  /** Python's `p in s`, computed. */
  function IsIn(p: string, s: string): (b: bool)
    ensures b <==> Contains(s, p)
  {
    IndexOf(s, p).Some?
  }

  /** Python's `s.split(sep)` for a non-empty separator (an empty one raises ValueError). */
  function SplitOn(s: string, sep: string): (r: seq<string>)
    requires |sep| > 0
    ensures |r| >= 1
    ensures |r| >= 2 <==> Contains(s, sep)
    decreases |s|
  {
    match IndexOf(s, sep)
    case None => [s]
    case Some(i) => [s[..i]] + SplitOn(s[i + |sep|..], sep)
  }

  /**
   * The first piece of `s.split(sep)` is `s` up to the first occurrence of
   * `sep`, or all of `s` when there is none.
   */
  lemma SplitOnHead(s: string, sep: string)
    requires |sep| > 0
    ensures var h := SplitOn(s, sep)[0];
      && h == s[..|h|]
      && (forall j :: 0 <= j < |h| ==> !Occurs(s, sep, j))
      && (|h| == |s| || Occurs(s, sep, |h|))
  {
    match IndexOf(s, sep)
    case None =>
      assert SplitOn(s, sep)[0] == s;
    case Some(i) =>
      assert SplitOn(s, sep)[0] == s[..i];
  }

  /** A one-character string occurs exactly where that character is. */
  lemma OccursChar(s: string, c: char, j: int)
    ensures Occurs(s, [c], j) <==> 0 <= j < |s| && s[j] == c
  {
    if 0 <= j < |s| {
      assert s[j..j + 1] == [s[j]];
    }
  }

  /** A string that lacks the first character of `p` does not contain `p`. */
  lemma NotContainsHead(s: string, p: string)
    requires |p| > 0 && p[0] !in s
    ensures !Contains(s, p)
  {
    forall j ensures !Occurs(s, p, j) {
      if 0 <= j && j + |p| <= |s| {
        assert s[j..j + |p|][0] == s[j];
      }
    }
  }

  /** The second piece of `s.split(sep)` is the first piece of what follows the first `sep`. */
  lemma SplitOnSecond(s: string, sep: string, i: nat)
    requires |sep| > 0 && IndexOf(s, sep) == Some(i)
    ensures |SplitOn(s, sep)| >= 2
    ensures SplitOn(s, sep)[1] == SplitOn(s[i + |sep|..], sep)[0]
  {
    var parts := SplitOn(s, sep);
    var tail := SplitOn(s[i + |sep|..], sep);
    assert parts == [s[..i]] + tail;
    assert parts[1] == tail[0];
  }

  /** Python's `sep.join(xs)`. */
  function Join(sep: string, xs: seq<string>): string {
    if |xs| == 0 then ""
    else if |xs| == 1 then xs[0]
    else xs[0] + sep + Join(sep, xs[1..])
  }

  /** Joining one more element appends the separator and the element. */
  lemma {:induction false} JoinSnoc(sep: string, xs: seq<string>, x: string)
    requires xs != []
    ensures Join(sep, xs + [x]) == Join(sep, xs) + sep + x
    decreases |xs|
  {
    var ys := xs + [x];
    if |xs| == 1 {
      assert ys[1..] == [x];
    } else {
      assert ys[1..] == xs[1..] + [x];
      JoinSnoc(sep, xs[1..], x);
    }
  }

  /** A character in neither the separator nor any element is not in the join. */
  lemma {:induction false} JoinNoChar(sep: string, xs: seq<string>, c: char)
    requires c !in sep && forall k :: 0 <= k < |xs| ==> c !in xs[k]
    ensures c !in Join(sep, xs)
    decreases |xs|
  {
    if |xs| > 1 {
      JoinNoChar(sep, xs[1..], c);
      assert c !in xs[0];
    }
  }

  /** The last index of `c` in `s`, as `rsplit(c, 1)` finds it. */
  function LastIndexOf(s: string, c: char): (r: Option<nat>)
    ensures r.Some? ==> r.value < |s| && s[r.value] == c && forall j :: r.value < j < |s| ==> s[j] != c
    ensures r.None? ==> forall j :: 0 <= j < |s| ==> s[j] != c
  {
    if |s| == 0 then None
    else if s[|s| - 1] == c then Some(|s| - 1)
    else LastIndexOf(s[..|s| - 1], c)
  }

  /**
   * `a, b = s.rsplit(c, 1)`: the text before and after the last `c`; None where
   * the source's tuple unpacking raises because `s` holds no `c`.
   */
  function RSplitOnce(s: string, c: char): (r: Option<(string, string)>)
    ensures r.None? <==> c !in s
    ensures r.Some? ==> s == r.value.0 + [c] + r.value.1 && c !in r.value.1
  {
    match LastIndexOf(s, c)
    case None => None
    case Some(i) =>
      assert s == s[..i] + [c] + s[i + 1..];
      Some((s[..i], s[i + 1..]))
  }

  /** Where the last `c` is known, `rsplit(c, 1)` cuts there. */
  lemma RSplitOnceAt(a: string, c: char, b: string)
    requires c !in b
    ensures RSplitOnce(a + [c] + b, c) == Some((a, b))
  {
    var s := a + [c] + b;
    assert s[|a|] == c;
    var r := LastIndexOf(s, c);
    assert r.Some? && r.value == |a|;
    assert s[..|a|] == a && s[|a| + 1..] == b;
  }

  function StripLeft(s: string, cs: set<char>): (r: string)
    ensures |r| <= |s|
    ensures r == [] || r[0] !in cs
    ensures r == s[|s| - |r|..]
  {
    if |s| > 0 && s[0] in cs then StripLeft(s[1..], cs) else s
  }

  function StripRight(s: string, cs: set<char>): (r: string)
    ensures |r| <= |s|
    ensures r == [] || r[|r| - 1] !in cs
    ensures r == s[..|r|]
  {
    if |s| > 0 && s[|s| - 1] in cs then StripRight(s[..|s| - 1], cs) else s
  }

  /** What StripLeft drops is made of characters of `cs`. */
  lemma {:induction false} StripLeftDrops(s: string, cs: set<char>)
    ensures forall j :: 0 <= j < |s| - |StripLeft(s, cs)| ==> s[j] in cs
  {
    if |s| > 0 && s[0] in cs {
      StripLeftDrops(s[1..], cs);
    }
  }

  /** What StripRight drops is made of characters of `cs`. */
  lemma {:induction false} StripRightDrops(s: string, cs: set<char>)
    ensures forall j :: |StripRight(s, cs)| <= j < |s| ==> s[j] in cs
  {
    if |s| > 0 && s[|s| - 1] in cs {
      StripRightDrops(s[..|s| - 1], cs);
    }
  }

  /**
   * `strip` keeps one contiguous slice of `s`: everything before and after it
   * is in `cs`, and the slice neither starts nor ends with a character of `cs`.
   */
  lemma StripCuts(s: string, cs: set<char>)
    ensures var r, i := Strip(s, cs), |s| - |StripLeft(s, cs)|;
      && i + |r| <= |s| && r == s[i..i + |r|]
      && (forall j :: 0 <= j < i ==> s[j] in cs)
      && (forall j :: i + |r| <= j < |s| ==> s[j] in cs)
  {
    StripSlice(s, cs);
    StripLeftDrops(s, cs);
    StripTail(s, cs);
  }

  lemma StripSlice(s: string, cs: set<char>)
    ensures var r, i := Strip(s, cs), |s| - |StripLeft(s, cs)|;
      i + |r| <= |s| && r == s[i..i + |r|]
  {
    var l := StripLeft(s, cs);
    var i := |s| - |l|;
    var r := StripRight(l, cs);
    assert Strip(s, cs) == r;
    assert l == s[i..] && r == l[..|r|];
  }

  lemma StripTail(s: string, cs: set<char>)
    ensures forall j :: |s| - |StripLeft(s, cs)| + |Strip(s, cs)| <= j < |s| ==> s[j] in cs
  {
    var l := StripLeft(s, cs);
    var i := |s| - |l|;
    assert Strip(s, cs) == StripRight(l, cs);
    StripRightDrops(l, cs);
    forall j | i + |StripRight(l, cs)| <= j < |s| ensures s[j] in cs {
      assert s[j] == l[j - i];
    }
  }

  /** Python's `s.strip(chars)`: drops every leading and trailing character of `cs`. */
  function Strip(s: string, cs: set<char>): (r: string)
    ensures |r| <= |s|
    ensures r == [] || (r[0] !in cs && r[|r| - 1] !in cs)
  {
    var l := StripLeft(s, cs);
    var r := StripRight(l, cs);
    assert r != [] ==> r[0] == l[0];
    r
  }

  /** What Python 2's argument-less `str.strip()` removes: ASCII whitespace. */
  const Whitespace: set<char> := {' ', '\t', '\n', '\r', '\U{000B}', '\U{000C}'}

  /** The first index holding the single character `c`, or None. */
  function FindChar(s: string, c: char): (r: Option<nat>)
    ensures r.None? ==> forall j :: 0 <= j < |s| ==> s[j] != c
    ensures r.Some? ==> r.value < |s| && s[r.value] == c && forall j :: 0 <= j < r.value ==> s[j] != c
  {
    if |s| == 0 then None
    else if s[0] == c then Some(0)
    else
      var r := FindChar(s[1..], c);
      if r.None? then None else Some(r.value + 1)
  }

  /** The first index holding `c` is what FindChar finds. */
  lemma FindCharAt(s: string, c: char, i: nat)
    requires i < |s| && s[i] == c && forall j :: 0 <= j < i ==> s[j] != c
    ensures FindChar(s, c) == Some(i)
  {
  }

  /** `s.split(c)` for a single character: the pieces between the occurrences of `c`. */
  function SplitChar(s: string, c: char): (r: seq<string>)
    ensures |r| >= 1
    decreases |s|
  {
    match FindChar(s, c)
    case None => [s]
    case Some(i) => [s[..i]] + SplitChar(s[i + 1..], c)
  }

  /** Only a string holding `c` splits into more than one piece, and no piece holds `c`. */
  lemma {:induction false} SplitCharPieces(s: string, c: char)
    ensures |SplitChar(s, c)| >= 2 <==> c in s
    ensures forall k :: 0 <= k < |SplitChar(s, c)| ==> c !in SplitChar(s, c)[k]
    decreases |s|
  {
    match FindChar(s, c)
    case None =>
    case Some(i) =>
      SplitCharPieces(s[i + 1..], c);
      assert c !in s[..i] by {
        forall j | 0 <= j < i ensures s[..i][j] != c { }
      }
  }

  /** With a one-character separator, the first occurrence is the first index holding that character. */
  lemma IndexOfChar(s: string, c: char, i: nat)
    requires i < |s| && s[i] == c && forall j :: 0 <= j < i ==> s[j] != c
    ensures IndexOf(s, [c]) == Some(i)
  {
    assert Occurs(s, [c], i) by { assert s[i..i + 1] == [c]; }
    assert forall j :: 0 <= j < i ==> !Occurs(s, [c], j) by {
      forall j | 0 <= j < i ensures !Occurs(s, [c], j) {
        assert s[j..j + 1][0] == s[j];
      }
    }
    FirstOccurrence(s, [c], i);
  }

  /** The first index where `p` occurs is what IndexOf finds. */
  lemma FirstOccurrence(s: string, p: string, i: nat)
    requires Occurs(s, p, i) && forall j :: 0 <= j < i ==> !Occurs(s, p, j)
    ensures IndexOf(s, p) == Some(i)
  {
    var r := IndexOf(s, p);
    assert r.Some?;
    assert !(r.value < i);
  }

  /** The character search agrees with the general substring search. */
  lemma FindCharIsIndexOf(s: string, c: char)
    ensures FindChar(s, c) == IndexOf(s, [c])
  {
    var r := FindChar(s, c);
    if r.Some? {
      IndexOfChar(s, c, r.value);
    } else {
      assert !Contains(s, [c]) by {
        forall j ensures !Occurs(s, [c], j) {
          if 0 <= j && j + 1 <= |s| {
            assert s[j..j + 1] == [s[j]];
          }
        }
      }
    }
  }

  /** Searching for a one-character string finds the first index holding that character. */
  lemma IndexOfCharFacts(s: string, c: char)
    ensures IndexOf(s, [c]).None? <==> c !in s
    ensures IndexOf(s, [c]).Some? ==>
      var i := IndexOf(s, [c]).value;
      i < |s| && s[i] == c && forall j :: 0 <= j < i ==> s[j] != c
  {
    FindCharIsIndexOf(s, c);
  }

  /** The character split agrees with the general `split`. */
  lemma {:induction false} SplitCharIsSplitOn(s: string, c: char)
    ensures SplitChar(s, c) == SplitOn(s, [c])
    decreases |s|
  {
    FindCharIsIndexOf(s, c);
    if FindChar(s, c).Some? {
      var i := FindChar(s, c).value;
      assert SplitOn(s, [c]) == [s[..i]] + SplitOn(s[i + 1..], [c]) by {
        assert IndexOf(s, [c]) == Some(i) && |[c]| == 1;
      }
      SplitCharIsSplitOn(s[i + 1..], c);
    }
  }

  /** Splitting on a character cuts at every occurrence, so it distributes over a join at one. */
  lemma {:induction false} SplitAround(a: string, c: char, b: string)
    ensures SplitChar(a + [c] + b, c) == SplitChar(a, c) + SplitChar(b, c)
    decreases |a|
  {
    var s := a + [c] + b;
    var r := FindChar(a, c);
    if r.None? {
      SplitAroundFirst(a, c, b, |a|);
      assert a[..|a|] == a;
      assert SplitChar(a, c) == [a];
    } else {
      var i := r.value;
      SplitAroundFirst(a, c, b, i);
      SplitAround(a[i + 1..], c, b);
      assert SplitChar(a, c) == [a[..i]] + SplitChar(a[i + 1..], c);
    }
  }

  /** The first `c` of `a + [c] + b` is at index i, the first of `a` or the one joining the two. */
  lemma SplitAroundFirst(a: string, c: char, b: string, i: nat)
    requires i <= |a| && forall j :: 0 <= j < i ==> a[j] != c
    requires i < |a| ==> a[i] == c
    ensures SplitChar(a + [c] + b, c) == [a[..i]] + SplitChar(if i < |a| then a[i + 1..] + [c] + b else b, c)
  {
    var s := a + [c] + b;
    assert s[i] == c;
    assert forall j :: 0 <= j < i ==> s[j] == a[j];
    FindCharAt(s, c, i);
    assert SplitChar(s, c) == [s[..i]] + SplitChar(s[i + 1..], c);
    assert s[..i] == a[..i];
    if i < |a| {
      assert s[i + 1..] == a[i + 1..] + [c] + b;
    } else {
      assert s[i + 1..] == b;
    }
  }

  /** Python's `sep.join(xs)`, read back by `split(sep)`, gives `xs` when no element holds the separator. */
  lemma {:induction false} SplitJoin(xs: seq<string>, c: char)
    requires |xs| >= 1
    requires forall k :: 0 <= k < |xs| ==> c !in xs[k]
    ensures SplitChar(Join([c], xs), c) == xs
    decreases |xs|
  {
    SplitCharNone(xs[0], c);
    if |xs| > 1 {
      var rest := Join([c], xs[1..]);
      assert Join([c], xs) == xs[0] + [c] + rest;
      SplitJoin(xs[1..], c);
      SplitAround(xs[0], c, rest);
      assert [xs[0]] + xs[1..] == xs;
    }
  }

  /** A string without `c` is one piece. */
  lemma SplitCharNone(s: string, c: char)
    requires c !in s
    ensures SplitChar(s, c) == [s]
  {
    assert FindChar(s, c).None?;
  }
}

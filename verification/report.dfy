/**
 Result generation: dropping stations with no readings, computing each mean,
 sorting by station name and rendering each entry as `min/mean/max`.

 The `:.1f` rendering of a number is the parameter `fmt`; which decimal text it
 produces (and how it rounds) is not modelled.
 */
module Report {
  import opened Text
  import opened Stats

  /** The (minimum, mean, maximum) triple computed for one station. */
  datatype Summary = Summary(min: real, mean: real, max: real)

  /** Strictly ascending station names, so each name appears at most once. */
  ghost predicate Sorted<V>(s: seq<(string, V)>) {
    forall i, j :: 0 <= i < j < |s| ==> Less(s[i].0, s[j].0)
  }

  predicate DistinctKeys<V>(s: seq<(string, V)>) {
    forall i, j :: 0 <= i < j < |s| ==> s[i].0 != s[j].0
  }

  function KeysOf<V>(s: seq<(string, V)>): set<string> {
    set i | 0 <= i < |s| :: s[i].0
  }

  lemma KeysOfCons<V>(e: (string, V), s: seq<(string, V)>)
    ensures KeysOf([e] + s) == {e.0} + KeysOf(s)
  {
    var r := [e] + s;
    forall k | k in KeysOf(s) ensures k in KeysOf(r) {
      var i :| 0 <= i < |s| && s[i].0 == k;
      assert r[i + 1] == s[i];
    }
    assert r[0] == e;
  }

  lemma KeysOfEmpty<V>(s: seq<(string, V)>)
    ensures KeysOf(s) == {} <==> |s| == 0
  {
    if |s| > 0 {
      assert s[0].0 in KeysOf(s);
    }
  }

  /** Places `e` among the already-sorted entries `s`, whose names all differ from its own. */
  function Insert<V>(e: (string, V), s: seq<(string, V)>): (r: seq<(string, V)>)
    requires Sorted(s)
    requires forall i :: 0 <= i < |s| ==> s[i].0 != e.0
    ensures Sorted(r)
    ensures multiset(r) == multiset(s) + multiset{e}
    ensures forall i :: 0 <= i < |r| ==> r[i] == e || r[i] in s
  {
    LessIsStrictTotalOrder();
    if |s| == 0 then [e]
    else if Less(e.0, s[0].0) then [e] + s
    else
      var rest := Insert(e, s[1..]);
      assert s == [s[0]] + s[1..];
      assert forall i :: 0 <= i < |rest| ==> Less(s[0].0, rest[i].0);
      [s[0]] + rest
  }

  lemma PermutationKeepsOtherKeys<V>(k: string, s: seq<(string, V)>, p: seq<(string, V)>)
    requires forall i :: 0 <= i < |s| ==> s[i].0 != k
    requires multiset(p) == multiset(s)
    ensures forall i :: 0 <= i < |p| ==> p[i].0 != k
  {
    forall i | 0 <= i < |p| ensures p[i].0 != k {
      assert p[i] in multiset(s);
      var j :| 0 <= j < |s| && s[j] == p[i];
    }
  }

  /** `sorted(items)` on entries whose names are distinct: the same entries,
      in strictly ascending order of name. */
  function SortByKey<V>(s: seq<(string, V)>): (r: seq<(string, V)>)
    requires DistinctKeys(s)
    ensures Sorted(r)
    ensures multiset(r) == multiset(s)
  {
    if |s| == 0 then []
    else
      var rest := SortByKey(s[1..]);
      PermutationKeepsOtherKeys(s[0].0, s[1..], rest);
      assert s == [s[0]] + s[1..];
      Insert(s[0], rest)
  }

  /** The names of a sequence's entries are those of any permutation of it. */
  lemma KeysOfPermutation<V>(a: seq<(string, V)>, b: seq<(string, V)>)
    requires multiset(a) == multiset(b)
    ensures KeysOf(a) == KeysOf(b)
  {
    forall k | k in KeysOf(a) ensures k in KeysOf(b) {
      var i :| 0 <= i < |a| && a[i].0 == k;
      assert a[i] in multiset(b);
    }
    forall k | k in KeysOf(b) ensures k in KeysOf(a) {
      var i :| 0 <= i < |b| && b[i].0 == k;
      assert b[i] in multiset(a);
    }
  }

  /** The summary of a station: its minimum, its mean `sum / count`, its maximum. */
  function SummaryOf(s: StationStats): (r: Summary)
    requires s.count > 0
    ensures r.min == s.min && r.max == s.max
    ensures r.mean * s.count as real == s.sum
    ensures Valid(s) ==> s.min <= r.mean <= s.max
  {
    Summary(s.min, Mean(s), s.max)
  }

  /** The loop over the count dictionary: stations in iteration order, those
      with a zero count skipped, each with its summary. */
  function Collect(order: seq<string>, stats: map<string, StationStats>): (r: seq<(string, Summary)>)
    requires forall i :: 0 <= i < |order| ==> order[i] in stats
    ensures KeysOf(r) == set k | k in order && k in stats && stats[k].count > 0
    ensures forall i :: 0 <= i < |r| ==>
              && r[i].0 in stats && stats[r[i].0].count > 0
              && r[i].1 == SummaryOf(stats[r[i].0])
    ensures forall i :: 0 <= i < |r| ==> r[i].0 in order
    ensures (forall i, j :: 0 <= i < j < |order| ==> order[i] != order[j]) ==> DistinctKeys(r)
  {
    if |order| == 0 then []
    else
      var rest := Collect(order[1..], stats);
      var k := order[0];
      assert order == [k] + order[1..];
      if stats[k].count == 0 then
        rest
      else
        var r := [(k, SummaryOf(stats[k]))] + rest;
        KeysOfCons((k, SummaryOf(stats[k])), rest);
        r
  }

  /** The text of one entry: the three rendered numbers joined by `/`. */
  function Render(fmt: real -> string, s: Summary): string {
    fmt(s.min) + "/" + fmt(s.mean) + "/" + fmt(s.max)
  }

  function RenderAll(fmt: real -> string, s: seq<(string, Summary)>): (r: seq<(string, string)>)
    ensures |r| == |s|
    ensures forall i :: 0 <= i < |s| ==> r[i] == (s[i].0, Render(fmt, s[i].1))
  {
    if |s| == 0 then [] else [(s[0].0, Render(fmt, s[0].1))] + RenderAll(fmt, s[1..])
  }

  /** Rendering keeps every name in place. */
  lemma RenderAllKeepsNames(fmt: real -> string, s: seq<(string, Summary)>)
    ensures KeysOf(RenderAll(fmt, s)) == KeysOf(s)
    ensures Sorted(s) ==> Sorted(RenderAll(fmt, s))
  {
    var r := RenderAll(fmt, s);
    forall k | k in KeysOf(s) ensures k in KeysOf(r) {
      var i :| 0 <= i < |s| && s[i].0 == k;
      assert r[i].0 == k;
    }
  }

  /** Sorting the collected entries keeps exactly the stations with a nonzero count. */
  lemma SortedCollectedNames(t: Table)
    requires KeysListed(t)
    ensures KeysOf(SortByKey(Collect(t.order, t.stats))) == set k | k in t.stats && t.stats[k].count > 0
  {
    var collected := Collect(t.order, t.stats);
    KeysOfPermutation(SortByKey(collected), collected);
    assert (set k | k in t.order && k in t.stats && t.stats[k].count > 0)
        == (set k | k in t.stats && t.stats[k].count > 0);
  }

  /** Sorting the collected entries keeps each station's own summary. */
  lemma SortedCollectedEntries(t: Table)
    requires KeysListed(t)
    ensures var sorted := SortByKey(Collect(t.order, t.stats));
      forall i :: 0 <= i < |sorted| ==>
        && sorted[i].0 in t.stats && t.stats[sorted[i].0].count > 0
        && sorted[i].1 == SummaryOf(t.stats[sorted[i].0])
  {
    var collected := Collect(t.order, t.stats);
    var sorted := SortByKey(collected);
    forall i | 0 <= i < |sorted|
      ensures sorted[i].0 in t.stats && t.stats[sorted[i].0].count > 0
      ensures sorted[i].1 == SummaryOf(t.stats[sorted[i].0])
    {
      assert sorted[i] in multiset(collected);
      var j :| 0 <= j < |collected| && collected[j] == sorted[i];
    }
  }

  /** The result dictionary, as its items in iteration order: exactly the
      stations with a nonzero count, strictly ascending by name, each with its
      rendered `min/mean/max` text. */
  function Generate(t: Table, fmt: real -> string): (r: seq<(string, string)>)
    requires KeysListed(t)
    ensures Sorted(r)
    ensures KeysOf(r) == set k | k in t.stats && t.stats[k].count > 0
    ensures forall i :: 0 <= i < |r| ==>
              && r[i].0 in t.stats && t.stats[r[i].0].count > 0
              && r[i].1 == Render(fmt, SummaryOf(t.stats[r[i].0]))
  {
    var sorted := SortByKey(Collect(t.order, t.stats));
    SortedCollectedNames(t);
    SortedCollectedEntries(t);
    RenderAllKeepsNames(fmt, sorted);
    RenderAll(fmt, sorted)
  }

  /** Two strictly sorted entry lists with the same names, and the same value
      wherever they share a name, are the same list. */
  lemma {:induction false} SortedSameKeys<V>(a: seq<(string, V)>, b: seq<(string, V)>)
    requires Sorted(a) && Sorted(b)
    requires KeysOf(a) == KeysOf(b)
    requires forall i, j :: 0 <= i < |a| && 0 <= j < |b| && a[i].0 == b[j].0 ==> a[i].1 == b[j].1
    ensures a == b
  {
    KeysOfEmpty(a);
    KeysOfEmpty(b);
    if |a| > 0 {
      assert a[0].0 in KeysOf(b);
      assert b[0].0 in KeysOf(a);
      var j :| 0 <= j < |b| && b[j].0 == a[0].0;
      var i :| 0 <= i < |a| && a[i].0 == b[0].0;
      if j > 0 {
        if i > 0 {
          LessAsymmetric(a[0].0, a[i].0);
        } else {
          LessIrreflexive(b[0].0);
        }
      }
      assert a[0] == b[0];
      forall k ensures k in KeysOf(a[1..]) <==> k in KeysOf(b[1..]) {
        if k in KeysOf(a[1..]) {
          var p :| 1 <= p < |a| && a[p].0 == k;
          LessIrreflexive(a[0].0);
          assert k in KeysOf(b);
          var q :| 0 <= q < |b| && b[q].0 == k;
          assert q != 0;
          assert b[1..][q - 1] == b[q];
        }
        if k in KeysOf(b[1..]) {
          var q :| 1 <= q < |b| && b[q].0 == k;
          LessIrreflexive(b[0].0);
          assert k in KeysOf(a);
          var p :| 0 <= p < |a| && a[p].0 == k;
          assert p != 0;
          assert a[1..][p - 1] == a[p];
        }
      }
      SortedSameKeys(a[1..], b[1..]);
      assert a == [a[0]] + a[1..] && b == [b[0]] + b[1..];
    }
  }

  /** The report depends only on the statistics, not on the order in which
      stations were first seen. */
  lemma GenerateIgnoresOrder(o1: seq<string>, o2: seq<string>, m: map<string, StationStats>, fmt: real -> string)
    requires KeysListed(Table(o1, m)) && KeysListed(Table(o2, m))
    ensures Generate(Table(o1, m), fmt) == Generate(Table(o2, m), fmt)
  {
    var a := Generate(Table(o1, m), fmt);
    var b := Generate(Table(o2, m), fmt);
    SortedSameKeys(a, b);
  }

  /** `s` split at every `c`, as `str.split`. */
  function Split(s: string, c: char): (parts: seq<string>)
    ensures |parts| >= 1
    decreases |s|
  {
    var k := IndexOf(s, c);
    if k == |s| then [s] else [s[..k]] + Split(s[k + 1..], c)
  }

  lemma SplitNoSeparator(a: string, c: char)
    requires c !in a
    ensures Split(a, c) == [a]
  {
  }

  lemma SplitFirst(a: string, c: char, rest: string)
    requires c !in a
    ensures Split(a + [c] + rest, c) == [a] + Split(rest, c)
  {
    var s := a + [c] + rest;
    IndexOfFirst(s, c, |a|);
    assert s[..|a|] == a && s[|a| + 1..] == rest;
  }

  /** When no rendered number contains `/`, splitting an entry at `/` gives back
      the three rendered numbers in order. */
  lemma RenderSplits(fmt: real -> string, s: Summary)
    requires forall x: real :: '/' !in fmt(x)
    ensures Split(Render(fmt, s), '/') == [fmt(s.min), fmt(s.mean), fmt(s.max)]
  {
    var a, b, c := fmt(s.min), fmt(s.mean), fmt(s.max);
    assert Render(fmt, s) == a + ['/'] + (b + ['/'] + c);
    SplitFirst(a, '/', b + ['/'] + c);
    SplitFirst(b, '/', c);
    SplitNoSeparator(c, '/');
  }
}

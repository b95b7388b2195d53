/**
 The per-station running statistics, fused into one record per station.

 The processor keeps four parallel dictionaries (minimum, maximum, sum and
 count, each keyed by station); here they are one `StationStats` record per station
 in one map. The `Dicts` module models the four dictionaries as written and
 proves that they and this table stay in step.
 */
module Stats {

  /** Running minimum, maximum, sum and count of one station's readings. */
  datatype StationStats = StationStats(min: real, max: real, sum: real, count: nat)

  /** The stations in first-touch order (the order in which the count
      dictionary iterates) and each station's statistics. */
  datatype Table = Table(order: seq<string>, stats: map<string, StationStats>)

  function Sum(vs: seq<real>): real {
    if |vs| == 0 then 0.0 else Sum(vs[..|vs| - 1]) + vs[|vs| - 1]
  }

  /** `s` is exactly the summary of the readings `vs`: their number, their
      exact sum, and a minimum and maximum that are among them and bound them. */
  ghost predicate Summarizes(s: StationStats, vs: seq<real>) {
    && s.count == |vs|
    && s.sum == Sum(vs)
    && (forall i :: 0 <= i < |vs| ==> s.min <= vs[i] <= s.max)
    && (|vs| > 0 ==> s.min in vs && s.max in vs)
  }

  /** What every stored record satisfies: at least one reading, and a sum
      that the count times the minimum and maximum bound. */
  predicate Valid(s: StationStats) {
    && s.count >= 1
    && s.min <= s.max
    && s.count as real * s.min <= s.sum <= s.count as real * s.max
  }

  /** The record created on a station's first reading. */
  function Seed(t: real): (s: StationStats)
    ensures Valid(s)
    ensures Summarizes(s, [t])
  {
    StationStats(t, t, t, 1)
  }

  /** One more reading `t` for a station that already has a record. */
  function Observe(s: StationStats, t: real): (r: StationStats)
    ensures r.count == s.count + 1
    ensures r.min <= s.min && r.min <= t && (r.min == s.min || r.min == t)
    ensures r.max >= s.max && r.max >= t && (r.max == s.max || r.max == t)
    ensures r.sum - s.sum == t
    ensures Valid(s) ==> Valid(r)
  {
    var lo := if t < s.min then t else s.min;
    var hi := if s.max < t then t else s.max;
    var r := StationStats(lo, hi, s.sum + t, s.count + 1);
    ObserveValid(s, t, r);
    r
  }

  lemma ObserveValid(s: StationStats, t: real, r: StationStats)
    requires r.count == s.count + 1 && r.sum == s.sum + t
    requires r.min <= s.min && r.min <= t && r.max >= s.max && r.max >= t
    ensures Valid(s) ==> Valid(r)
  {
    if Valid(s) {
      var c := s.count as real;
      var c1 := r.count as real;
      assert c1 == c + 1.0;
      MulMono(c, r.min, s.min);
      MulMono(c, s.max, r.max);
      MulSucc(c, c1, r.min);
      MulSucc(c, c1, r.max);
      assert c1 * r.min <= r.sum;
      assert r.sum <= c1 * r.max;
    }
  }

  lemma MulSucc(c: real, c1: real, x: real)
    requires c1 == c + 1.0
    ensures c1 * x == c * x + x
  {
  }

  lemma MulMono(c: real, a: real, b: real)
    requires c >= 0.0 && a <= b
    ensures c * a <= c * b
  {
  }

  /** Folding one more reading into a summary summarizes the longer sequence. */
  lemma ObserveExtends(s: StationStats, vs: seq<real>, t: real)
    requires |vs| > 0 && Summarizes(s, vs)
    ensures Summarizes(Observe(s, t), vs + [t])
  {
    var r := Observe(s, t);
    var ws := vs + [t];
    assert ws[..|ws| - 1] == vs;
    forall i | 0 <= i < |ws|
      ensures r.min <= ws[i] <= r.max
    {
      if i < |vs| {
        assert ws[i] == vs[i];
      }
    }
    assert r.min in ws && r.max in ws;
  }

  /** The mean `sum / count` of a valid record lies between its minimum and maximum. */
  function Mean(s: StationStats): (m: real)
    requires s.count > 0
    ensures m * s.count as real == s.sum
    ensures Valid(s) ==> s.min <= m <= s.max
  {
    var c := s.count as real;
    var m := s.sum / c;
    assert Valid(s) ==> s.min <= m <= s.max by {
      if Valid(s) {
        assert m * c == s.sum;
        if m < s.min {
          MulMono(c, m, s.min);
        }
        if s.max < m {
          MulMono(c, s.max, m);
        }
      }
    }
    m
  }

  /** The order lists every station exactly once, and only stations with a record. */
  predicate KeysListed(t: Table) {
    && (forall i, j :: 0 <= i < j < |t.order| ==> t.order[i] != t.order[j])
    && (forall i :: 0 <= i < |t.order| ==> t.order[i] in t.stats)
    && (forall k :: k in t.stats ==> k in t.order)
  }

  /** The table invariant kept across the whole run. */
  predicate TableValid(t: Table) {
    && KeysListed(t)
    && (forall k :: k in t.stats ==> Valid(t.stats[k]))
  }

  const Empty := Table([], map[])

  /** One valid reading `v` for station `k`: first touch seeds a fresh record
      and appends `k` to the order, later readings update the record in place;
      every other station is left as it was. */
  function Update(t: Table, k: string, v: real): (r: Table)
    ensures k in r.stats
    ensures k !in t.stats ==> r.stats[k] == Seed(v) && r.order == t.order + [k]
    ensures k in t.stats ==> r.stats[k] == Observe(t.stats[k], v) && r.order == t.order
    ensures r.stats[k].count == (if k in t.stats then t.stats[k].count else 0) + 1
    ensures forall j :: j != k ==> (j in r.stats <==> j in t.stats)
    ensures forall j :: j != k && j in t.stats ==> r.stats[j] == t.stats[j]
  {
    if k in t.stats then Table(t.order, t.stats[k := Observe(t.stats[k], v)])
    else Table(t.order + [k], t.stats[k := Seed(v)])
  }

  /** An update keeps the order in step with the stations, and every record valid. */
  lemma UpdateKeepsValid(t: Table, k: string, v: real)
    ensures KeysListed(t) ==> KeysListed(Update(t, k, v))
    ensures TableValid(t) ==> TableValid(Update(t, k, v))
  {
  }
}

/**
 The processing loop: every row is parsed, a valid reading updates its
 station's statistics, a rejected row is reported and skipped, and once the
 rows run out the report is generated.

 `Process` states the loop as a left fold over the rows on the fused table;
 `Run` is the loop as written, over the four dictionaries, and is proved to
 compute the same report.
 */
module Engine {
  import opened Wrappers
  import opened Rows
  import opened Stats
  import opened Dicts
  import opened Report

  /** One iteration of the loop body: a rejected row leaves the table as it
      was, a parsed row updates its station. */
  function Step(t: Table, row: seq<string>): (r: Table)
    ensures ParseRow(row).Failure? ==> r == t
    ensures ParseRow(row).Success? ==> var k := ParseRow(row).value.0;
              && k in r.stats
              && r.stats[k].count == (if k in t.stats then t.stats[k].count else 0) + 1
              && r.stats[k] == (if k in t.stats then Observe(t.stats[k], ParseRow(row).value.1)
                                else Seed(ParseRow(row).value.1))
              && (forall j :: j != k ==> (j in r.stats <==> j in t.stats))
              && (forall j :: j != k && j in t.stats ==> r.stats[j] == t.stats[j])
    ensures TableValid(t) ==> TableValid(r)
  {
    match ParseRow(row)
    case Failure(_) => t
    case Success((station, temperature)) =>
      UpdateKeepsValid(t, station, temperature);
      Update(t, station, temperature)
  }

  /** The table after all rows, folded from the left in file order. */
  function Process(rows: seq<seq<string>>): (t: Table)
    ensures TableValid(t)
  {
    if |rows| == 0 then Empty else Step(Process(rows[..|rows| - 1]), rows[|rows| - 1])
  }

  lemma ProcessSnoc(rows: seq<seq<string>>, row: seq<string>)
    ensures Process(rows + [row]) == Step(Process(rows), row)
  {
    assert (rows + [row])[..|rows|] == rows;
  }

  /** The temperatures of the rows that parse and name station `k`, in file order. */
  function Readings(rows: seq<seq<string>>, k: string): seq<real> {
    if |rows| == 0 then []
    else
      Readings(rows[..|rows| - 1], k) +
        match ParseRow(rows[|rows| - 1])
        case Success((station, temperature)) => if station == k then [temperature] else []
        case Failure(_) => []
  }

  /** The statistics after the whole run are exactly those of each station's
      valid readings: a station has an entry iff it has a valid reading, its
      count is the number of those readings, its sum their exact sum, and its
      minimum and maximum are readings that bound all the others. */
  lemma {:induction false} ProcessSummarizes(rows: seq<seq<string>>, k: string)
    ensures k in Process(rows).stats <==> |Readings(rows, k)| > 0
    ensures k in Process(rows).stats ==> Summarizes(Process(rows).stats[k], Readings(rows, k))
  {
    if |rows| > 0 {
      var init := rows[..|rows| - 1];
      var row := rows[|rows| - 1];
      ProcessSummarizes(init, k);
      var before := Process(init);
      var vs := Readings(init, k);
      match ParseRow(row)
      case Failure(_) =>
        assert Readings(rows, k) == vs;
      case Success((station, v)) =>
        if station == k {
          assert Readings(rows, k) == vs + [v];
          if k in before.stats {
            ObserveExtends(before.stats[k], vs, v);
          } else {
            assert vs == [];
            assert vs + [v] == [v];
          }
        } else {
          assert Readings(rows, k) == vs;
        }
    }
  }

  /** A station's count is the number of its rows that parsed. */
  lemma CountIsValidRows(rows: seq<seq<string>>, k: string)
    ensures k in Process(rows).stats ==> Process(rows).stats[k].count == |Readings(rows, k)| >= 1
  {
    ProcessSummarizes(rows, k);
  }

  /** A rejected row changes nothing, and processing carries on after it. */
  lemma InvalidRowChangesNothing(rows: seq<seq<string>>, row: seq<string>, more: seq<seq<string>>)
    requires ParseRow(row).Failure?
    ensures Process(rows + [row]) == Process(rows)
    ensures Process(rows + [row] + more) == Process(rows + more)
  {
    assert (rows + [row])[..|rows|] == rows;
    SameTableSameFuture(rows + [row], rows, more);
  }

  /** Two runs that reach the same table stay level on the same remaining rows. */
  lemma {:induction false} SameTableSameFuture(xs: seq<seq<string>>, ys: seq<seq<string>>, post: seq<seq<string>>)
    requires Process(xs) == Process(ys)
    ensures Process(xs + post) == Process(ys + post)
  {
    if |post| > 0 {
      var init := post[..|post| - 1];
      var last := post[|post| - 1];
      SameTableSameFuture(xs, ys, init);
      assert xs + post == (xs + init) + [last] && ys + post == (ys + init) + [last];
      ProcessSnoc(xs + init, last);
      ProcessSnoc(ys + init, last);
    } else {
      assert xs + post == xs && ys + post == ys;
    }
  }

  /** Empty input, or input whose every row is rejected, gives an empty report. */
  lemma {:induction false} AllRejectedGivesEmptyReport(rows: seq<seq<string>>, fmt: real -> string)
    requires forall i :: 0 <= i < |rows| ==> ParseRow(rows[i]).Failure?
    ensures Process(rows) == Empty
    ensures Generate(Process(rows), fmt) == []
  {
    if |rows| > 0 {
      AllRejectedGivesEmptyReport(rows[..|rows| - 1], fmt);
    }
    KeysOfEmpty(Generate(Process(rows), fmt));
  }

  /** Two runs whose tables hold the same statistics stay level on the same remaining rows. */
  lemma {:induction false} SameStatsSameFuture(xs: seq<seq<string>>, ys: seq<seq<string>>, post: seq<seq<string>>)
    requires Process(xs).stats == Process(ys).stats
    ensures Process(xs + post).stats == Process(ys + post).stats
  {
    if |post| > 0 {
      var init := post[..|post| - 1];
      var last := post[|post| - 1];
      SameStatsSameFuture(xs, ys, init);
      assert xs + post == (xs + init) + [last] && ys + post == (ys + init) + [last];
      ProcessSnoc(xs + init, last);
      ProcessSnoc(ys + init, last);
      StepSameStats(Process(xs + init), Process(ys + init), last);
    } else {
      assert xs + post == xs && ys + post == ys;
    }
  }

  /** A step's effect on the statistics depends only on the statistics. */
  lemma StepSameStats(t: Table, u: Table, row: seq<string>)
    requires t.stats == u.stats
    ensures Step(t, row).stats == Step(u, row).stats
  {
  }

  /** Two readings for one station give the same record in either order. */
  lemma ObserveCommutes(s: StationStats, a: real, b: real)
    ensures Observe(Observe(s, a), b) == Observe(Observe(s, b), a)
    ensures Observe(Seed(a), b) == Observe(Seed(b), a)
  {
  }

  /** Two readings for the same station give the same statistics in either order. */
  lemma SameStationCommutes(t: Table, k: string, va: real, vb: real)
    ensures Update(Update(t, k, va), k, vb).stats == Update(Update(t, k, vb), k, va).stats
  {
    var lhs := Update(Update(t, k, va), k, vb).stats;
    var rhs := Update(Update(t, k, vb), k, va).stats;
    if k in t.stats {
      ObserveCommutes(t.stats[k], va, vb);
    } else {
      ObserveCommutes(Seed(va), va, vb);
    }
    MapsEqual(lhs, rhs);
  }

  /** Readings for two different stations update disjoint records, so their
      order does not matter to the statistics. */
  lemma DistinctStationsCommute(t: Table, ka: string, va: real, kb: string, vb: real)
    requires ka != kb
    ensures Update(Update(t, ka, va), kb, vb).stats == Update(Update(t, kb, vb), ka, va).stats
  {
    var lhs := Update(Update(t, ka, va), kb, vb).stats;
    var rhs := Update(Update(t, kb, vb), ka, va).stats;
    forall j | j in lhs && j in rhs ensures lhs[j] == rhs[j] {
      if j == ka {
        assert lhs[j] == Update(t, ka, va).stats[ka];
      } else if j == kb {
        assert rhs[j] == Update(t, kb, vb).stats[kb];
      }
    }
    MapsEqual(lhs, rhs);
  }

  /** Two consecutive rows leave the same statistics in either order. */
  lemma StepsCommute(t: Table, a: seq<string>, b: seq<string>)
    ensures Step(Step(t, a), b).stats == Step(Step(t, b), a).stats
  {
    if ParseRow(a).Success? && ParseRow(b).Success? {
      var (ka, va) := ParseRow(a).value;
      var (kb, vb) := ParseRow(b).value;
      if ka == kb {
        SameStationCommutes(t, ka, va, vb);
      } else {
        DistinctStationsCommute(t, ka, va, kb, vb);
      }
    }
  }

  /** Swapping two adjacent rows does not change the report: the statistics
      are the same and the report does not depend on first-touch order. */
  lemma SwapAdjacentRows(pre: seq<seq<string>>, a: seq<string>, b: seq<string>, post: seq<seq<string>>,
                         fmt: real -> string)
    ensures Process(pre + [a, b] + post).stats == Process(pre + [b, a] + post).stats
    ensures Generate(Process(pre + [a, b] + post), fmt) == Generate(Process(pre + [b, a] + post), fmt)
  {
    var ab := pre + [a, b];
    var ba := pre + [b, a];
    assert ab[..|ab| - 1] == pre + [a] && (pre + [a])[..|pre|] == pre;
    assert ba[..|ba| - 1] == pre + [b] && (pre + [b])[..|pre|] == pre;
    StepsCommute(Process(pre), a, b);
    SameStatsSameFuture(ab, ba, post);
    var x := Process(ab + post);
    var y := Process(ba + post);
    GenerateIgnoresOrder(x.order, y.order, x.stats, fmt);
  }

  /** The rejected rows, each with its index and error kind, in file order. */
  function Rejections(rows: seq<seq<string>>): (r: seq<(nat, ParseError)>)
    ensures forall n :: 0 <= n < |r| ==> r[n].0 < |rows| && ParseRow(rows[r[n].0]) == Failure(r[n].1)
    ensures forall n, m :: 0 <= n < m < |r| ==> r[n].0 < r[m].0
  {
    if |rows| == 0 then []
    else
      var init := rows[..|rows| - 1];
      var before := Rejections(init);
      var i := |rows| - 1;
      assert forall j :: 0 <= j < i ==> rows[j] == init[j];
      match ParseRow(rows[i])
      case Failure(e) =>
          before + [(i, e)]
      case Success(_) => before
  }

  /** Every rejected row is among the rejections. */
  lemma {:induction false} RejectionsComplete(rows: seq<seq<string>>, i: nat)
    requires i < |rows|
    ensures ParseRow(rows[i]).Failure? ==> exists n :: 0 <= n < |Rejections(rows)| && Rejections(rows)[n].0 == i
  {
    if ParseRow(rows[i]).Failure? {
      var init := rows[..|rows| - 1];
      var r := Rejections(rows);
      if i < |rows| - 1 {
        assert rows[i] == init[i];
        RejectionsComplete(init, i);
        var n :| 0 <= n < |Rejections(init)| && Rejections(init)[n].0 == i;
        assert r[n] == Rejections(init)[n];
      } else {
        assert r[|r| - 1].0 == i;
      }
    }
  }

  /** One iteration of the loop on the dictionaries agrees with one step of the fold. */
  lemma RunStepAgrees(rows: seq<seq<string>>, i: nat, d: State)
    requires i < |rows| && InStep(d) && Fuse(d) == Process(rows[..i])
    ensures var d' := match ParseRow(rows[i]) case Failure(_) => d case Success((k, t)) => Record(d, k, t);
      InStep(d') && Fuse(d') == Process(rows[..i + 1])
  {
    assert rows[..i + 1] == rows[..i] + [rows[i]];
    ProcessSnoc(rows[..i], rows[i]);
    match ParseRow(rows[i]) {
      case Failure(_) =>
      case Success((k, t)) =>
        RecordInStep(d, k, t);
        RecordFuses(d, k, t);
    }
  }

  /** One iteration of the loop extends the rejections of the rows before it. */
  lemma RejectionsSnoc(rows: seq<seq<string>>, i: nat)
    requires i < |rows|
    ensures Rejections(rows[..i + 1]) ==
              Rejections(rows[..i]) + match ParseRow(rows[i]) case Failure(e) => [(i, e)] case Success(_) => []
  {
    assert rows[..i + 1][..i] == rows[..i];
  }

  /** The loop of the processing method, on the four dictionaries: each row is
      parsed; a valid one updates the dictionaries, a rejected one is reported
      with its error and skipped. The report it returns is the one the fold
      over the fused table gives, and the reported rows are exactly the rejected ones. */
  method Run(rows: seq<seq<string>>, fmt: real -> string)
    returns (report: seq<(string, string)>, skipped: seq<(nat, ParseError)>)
    ensures report == Generate(Process(rows), fmt)
    ensures skipped == Rejections(rows)
  {
    var d := Fresh;
    FreshFuses();
    skipped := [];
    var i := 0;
    while i < |rows|
      invariant 0 <= i <= |rows|
      invariant InStep(d)
      invariant Fuse(d) == Process(rows[..i])
      invariant skipped == Rejections(rows[..i])
    {
      RunStepAgrees(rows, i, d);
      RejectionsSnoc(rows, i);
      match ParseRow(rows[i]) {
        case Failure(e) =>
          skipped := skipped + [(i, e)];
        case Success((station, temperature)) =>
          d := Record(d, station, temperature);
      }
      i := i + 1;
    }
    assert rows[..i] == rows;
    report := Generate(Fuse(d), fmt);
  }
}

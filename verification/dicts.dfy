/**
 The processor's state as written: four dictionaries keyed by station.

 `minimas` and `maximas` are default dictionaries whose missing entries read as
 +infinity and -infinity, `somas` reads missing entries as 0.0, and `medicoes`
 is a counter whose missing entries read as 0 and whose iteration order is the
 order in which stations were first counted. `Fuse` maps this state onto the
 one-record-per-station `Table`, and `RecordFuses` proves that the update on
 the four dictionaries and `Stats.Update` on the table stay in step.
 */
module Dicts {
  import opened Stats

  /** A float that may also be one of the two infinities. */
  datatype Ext = NegInf | Fin(r: real) | PosInf

  predicate ExtLess(a: Ext, b: Ext) {
    match (a, b)
    case (NegInf, NegInf) => false
    case (NegInf, _) => true
    case (Fin(x), Fin(y)) => x < y
    case (Fin(_), PosInf) => true
    case _ => false
  }

  /** Python's two-argument `min`: the first argument unless the second is smaller. */
  function PyMin(a: Ext, b: Ext): (r: Ext)
    ensures r == a || r == b
    ensures !ExtLess(a, r) && !ExtLess(b, r)
  {
    if ExtLess(b, a) then b else a
  }

  /** Python's two-argument `max`: the first argument unless the second is larger. */
  function PyMax(a: Ext, b: Ext): (r: Ext)
    ensures r == a || r == b
    ensures !ExtLess(r, a) && !ExtLess(r, b)
  {
    if ExtLess(a, b) then b else a
  }

  /** The processor's four dictionaries, and the counter's iteration order. */
  datatype State = State(
    minimas: map<string, Ext>,
    maximas: map<string, Ext>,
    somas: map<string, real>,
    medicoes: map<string, nat>,
    counted: seq<string>)

  /** The state right after construction: four empty dictionaries. */
  const Fresh := State(map[], map[], map[], map[], [])

  /** Reads through each dictionary's default. */
  function MinAt(d: State, k: string): Ext { if k in d.minimas then d.minimas[k] else PosInf }
  function MaxAt(d: State, k: string): Ext { if k in d.maximas then d.maximas[k] else NegInf }
  function SumAt(d: State, k: string): real { if k in d.somas then d.somas[k] else 0.0 }
  function CountAt(d: State, k: string): nat { if k in d.medicoes then d.medicoes[k] else 0 }

  /** The statistics update for one reading `t` of station `k`: the counter goes
      up by one, then minimum, maximum and sum are combined with `t` through
      each dictionary's default; no other station's entries change. */
  function Record(d: State, k: string, t: real): (r: State)
    ensures r.medicoes.Keys == d.medicoes.Keys + {k} && r.medicoes[k] == CountAt(d, k) + 1
    ensures r.minimas.Keys == d.minimas.Keys + {k} && r.maximas.Keys == d.maximas.Keys + {k}
    ensures r.somas.Keys == d.somas.Keys + {k}
    ensures r.somas[k] == SumAt(d, k) + t
    ensures !ExtLess(Fin(t), r.minimas[k]) && !ExtLess(MinAt(d, k), r.minimas[k])
    ensures r.minimas[k] == MinAt(d, k) || r.minimas[k] == Fin(t)
    ensures !ExtLess(r.maximas[k], Fin(t)) && !ExtLess(r.maximas[k], MaxAt(d, k))
    ensures r.maximas[k] == MaxAt(d, k) || r.maximas[k] == Fin(t)
    ensures k in d.medicoes ==> r.counted == d.counted
    ensures k !in d.medicoes ==> r.counted == d.counted + [k]
    ensures forall j :: j != k ==>
              && MinAt(r, j) == MinAt(d, j) && MaxAt(r, j) == MaxAt(d, j)
              && SumAt(r, j) == SumAt(d, j) && CountAt(r, j) == CountAt(d, j)
  {
    var counted := if k in d.medicoes then d.counted else d.counted + [k];
    State(
      d.minimas[k := PyMin(MinAt(d, k), Fin(t))],
      d.maximas[k := PyMax(MaxAt(d, k), Fin(t))],
      d.somas[k := SumAt(d, k) + t],
      d.medicoes[k := CountAt(d, k) + 1],
      counted)
  }

  /** First touch: because the defaults are +infinity, -infinity and zero, the
      first reading seeds minimum, maximum and sum with itself and the count with one. */
  lemma FirstTouchSeeds(d: State, k: string, t: real)
    requires k !in d.minimas && k !in d.maximas && k !in d.somas && k !in d.medicoes
    ensures var r := Record(d, k, t);
      r.minimas[k] == Fin(t) && r.maximas[k] == Fin(t) && r.somas[k] == t && r.medicoes[k] == 1
  {
  }

  /** The four dictionaries hold entries for the same stations, each minimum and
      maximum is finite, each count is positive, and the counter's iteration
      order lists each counted station exactly once. */
  predicate InStep(d: State) {
    && d.minimas.Keys == d.medicoes.Keys
    && d.maximas.Keys == d.medicoes.Keys
    && d.somas.Keys == d.medicoes.Keys
    && (forall k :: k in d.medicoes ==> d.medicoes[k] >= 1 && d.minimas[k].Fin? && d.maximas[k].Fin?)
    && (forall i, j :: 0 <= i < j < |d.counted| ==> d.counted[i] != d.counted[j])
    && (forall i :: 0 <= i < |d.counted| ==> d.counted[i] in d.medicoes)
    && (forall k :: k in d.medicoes ==> k in d.counted)
  }

  /** The finite value of a minimum or maximum (infinities never reach a fused record). */
  function Value(e: Ext): real {
    if e.Fin? then e.r else 0.0
  }

  /** Station `k`'s four dictionary entries, read as one record. */
  function StatsAt(d: State, k: string): StationStats {
    StationStats(Value(MinAt(d, k)), Value(MaxAt(d, k)), SumAt(d, k), CountAt(d, k))
  }

  /** The one-record-per-station view of the four dictionaries. */
  function Fuse(d: State): (t: Table)
    ensures forall k :: k in t.stats <==> k in d.medicoes
    ensures InStep(d) ==> KeysListed(t)
    ensures InStep(d) ==> forall k :: k in t.stats ==>
              && Fin(t.stats[k].min) == d.minimas[k] && Fin(t.stats[k].max) == d.maximas[k]
              && t.stats[k].sum == d.somas[k] && t.stats[k].count == d.medicoes[k]
  {
    Table(d.counted, map k | k in d.medicoes :: StatsAt(d, k))
  }

  lemma FreshFuses()
    ensures InStep(Fresh) && Fuse(Fresh) == Empty
  {
  }

  /** The dictionary update keeps the four dictionaries in step. */
  lemma RecordInStep(d: State, k: string, t: real)
    requires InStep(d)
    ensures InStep(Record(d, k, t))
  {
    var r := Record(d, k, t);
    forall j | j in r.medicoes
      ensures r.medicoes[j] >= 1 && r.minimas[j].Fin? && r.maximas[j].Fin?
    {
      if j != k {
        assert MinAt(r, j) == MinAt(d, j) && MaxAt(r, j) == MaxAt(d, j) && CountAt(r, j) == CountAt(d, j);
      }
    }
  }

  /** On the updated station, the dictionaries' combined entries are the seeded
      record on first touch and the observed record afterwards. */
  lemma RecordAtKey(d: State, k: string, t: real)
    requires InStep(d)
    ensures StatsAt(Record(d, k, t), k) == if k in d.medicoes then Observe(StatsAt(d, k), t) else Seed(t)
  {
  }

  lemma RecordElsewhere(d: State, k: string, t: real, j: string)
    requires j != k
    ensures StatsAt(Record(d, k, t), j) == StatsAt(d, j)
  {
  }

  lemma RecordFusesValues(d: State, k: string, t: real)
    requires InStep(d)
    ensures forall j :: j in Fuse(Record(d, k, t)).stats && j in Update(Fuse(d), k, t).stats ==>
              Fuse(Record(d, k, t)).stats[j] == Update(Fuse(d), k, t).stats[j]
  {
    RecordAtKey(d, k, t);
    var lhs := Fuse(Record(d, k, t)).stats;
    var rhs := Update(Fuse(d), k, t).stats;
    forall j | j in lhs && j in rhs ensures lhs[j] == rhs[j] {
      if j != k {
        RecordElsewhere(d, k, t, j);
      }
    }
  }

  lemma RecordFusesKeys(d: State, k: string, t: real)
    requires InStep(d)
    ensures Fuse(Record(d, k, t)).stats.Keys == Update(Fuse(d), k, t).stats.Keys
  {
  }

  lemma RecordFusesOrder(d: State, k: string, t: real)
    requires InStep(d)
    ensures Fuse(Record(d, k, t)).order == Update(Fuse(d), k, t).order
  {
  }

  lemma MapsEqual<K, V>(a: map<K, V>, b: map<K, V>)
    requires a.Keys == b.Keys
    requires forall k :: k in a && k in b ==> a[k] == b[k]
    ensures a == b
  {
  }

  /** Viewed through `Fuse`, the dictionary update is exactly the table update:
      one record per station, created on first touch. */
  lemma RecordFuses(d: State, k: string, t: real)
    requires InStep(d)
    ensures Fuse(Record(d, k, t)) == Update(Fuse(d), k, t)
  {
    RecordFusesValues(d, k, t);
    RecordFusesKeys(d, k, t);
    RecordFusesOrder(d, k, t);
    var lhs := Fuse(Record(d, k, t));
    var rhs := Update(Fuse(d), k, t);
    MapsEqual(lhs.stats, rhs.stats);
  }
}

/** The pure arithmetic of agent.py: the affine sugar model, the predicted death time, the
    gestation test and the choice setNextEvent makes among the four pending times. */
module AgentMath {
  import opened Wrappers
  import opened ExtReals
  import opened Events

  /** ZeroDivisionError, raised by compute_death when it divides by zero. */
  datatype Fault = ZeroDivision

  /** compute_sugar: the sugar line of slope `-metab` through `(tNow, sugar)`, read at `tThen`. */
  function ComputeSugar(sugar: real, metab: real, tNow: real, tThen: real): real
  {
    sugar + (-metab * (tThen - tNow))
  }

  /** Advancing the sugar line in two steps is advancing it once: the lazy accounting of
      `sugar = nextSugar` at each behaviour never drifts from the line. */
  lemma SugarLineComposes(sugar: real, metab: real, t0: real, t1: real, t2: real)
    ensures ComputeSugar(ComputeSugar(sugar, metab, t0, t1), metab, t1, t2)
         == ComputeSugar(sugar, metab, t0, t2)
  {
  }

  /** With a non-negative metabolism, sugar never grows along the line. */
  lemma SugarLineFalls(sugar: real, metab: real, t0: real, t1: real)
    requires 0.0 <= metab && t0 <= t1
    ensures ComputeSugar(sugar, metab, t0, t1) <= sugar
  {
    assert metab * (t1 - t0) >= 0.0;
  }

  /** The slope compute_death recovers from two points of the line is `-metab`. */
  lemma SlopeOfLine(sugar: real, metab: real, tNow: real, tHopeful: real)
    requires tHopeful != tNow
    ensures (ComputeSugar(sugar, metab, tNow, tHopeful) - sugar) / (tHopeful - tNow) == -metab
  {
    var d := tHopeful - tNow;
    assert ComputeSugar(sugar, metab, tNow, tHopeful) - sugar == -metab * d;
    assert (-metab * d) / d == -metab;
  }

  /** compute_death(tNow, tHopeful): when the line is at or below zero at `tHopeful`, the time
      it crosses zero, `tNow + sugar/metab`; otherwise `-inf`. A zero interval or a zero
      metabolism makes the source divide by zero. */
  function ComputeDeath(sugar: real, metab: real, tNow: real, tHopeful: real): (r: Result<ExtReal, Fault>)
    ensures r.Failure? <==>
      ComputeSugar(sugar, metab, tNow, tHopeful) <= 0.0 && (tHopeful == tNow || metab == 0.0)
    ensures ComputeSugar(sugar, metab, tNow, tHopeful) > 0.0 ==> r == Success(NegInf)
    ensures r.Success? ==> (r.value == NegInf <==> ComputeSugar(sugar, metab, tNow, tHopeful) > 0.0)
    ensures ComputeSugar(sugar, metab, tNow, tHopeful) <= 0.0 && r.Success? ==> r.value == Fin(tNow + sugar / metab)
    ensures r.Success? && r.value != NegInf ==>
      && metab != 0.0
      && r.value == Fin(tNow + sugar / metab)
      && ComputeSugar(sugar, metab, tNow, r.value.r) == 0.0
    ensures r.Success? && r.value != NegInf && tNow < tHopeful && 0.0 < metab && 0.0 <= sugar ==>
      tNow <= r.value.r <= tHopeful
  {
    var expectedAmount := ComputeSugar(sugar, metab, tNow, tHopeful);
    if expectedAmount <= 0.0 then
      if tHopeful == tNow then Failure(ZeroDivision)
      else
        var m := (expectedAmount - sugar) / (tHopeful - tNow);
        SlopeOfLine(sugar, metab, tNow, tHopeful);
        if m == 0.0 then Failure(ZeroDivision)
        else
          DeathTimeOnLine(sugar, metab, tNow, tHopeful);
          Success(Fin(tNow + (-sugar / m)))
    else Success(NegInf)
  }

  lemma DeathTimeOnLine(sugar: real, metab: real, tNow: real, tHopeful: real)
    requires metab != 0.0
    ensures tNow + (-sugar / -metab) == tNow + sugar / metab
    ensures ComputeSugar(sugar, metab, tNow, tNow + sugar / metab) == 0.0
    ensures ComputeSugar(sugar, metab, tNow, tHopeful) <= 0.0 && tNow < tHopeful && 0.0 < metab && 0.0 <= sugar ==>
      tNow <= tNow + sugar / metab <= tHopeful
  {
    assert metab * (sugar / metab) == sugar;
    if ComputeSugar(sugar, metab, tNow, tHopeful) <= 0.0 && tNow < tHopeful && 0.0 < metab && 0.0 <= sugar {
      assert sugar <= metab * (tHopeful - tNow);
      assert sugar / metab <= tHopeful - tNow;
    }
  }

  /** is_gestating(t): never while no gestation period has been drawn (`period_g == inf`),
      else `t <= t_reproduce + period_g`. */
  function IsGestating(periodG: ExtReal, tReproduce: ExtReal, t: real): bool
  {
    match periodG
    case PosInf => false
    case NegInf => false
    case Fin(g) =>
      match tReproduce
      case PosInf => true
      case NegInf => false
      case Fin(r) => t <= r + g
  }

  /** The pending times in the order get_next_event lists them, and the matching types. */
  function Pending(tMove: real, tDie: ExtReal, tReproduce: ExtReal, tBirth: ExtReal): seq<ExtReal>
  {
    [Fin(tMove), tDie, tReproduce, tBirth]
  }

  const EventOrder: seq<EventType> := [Move, Die, Reproduce, Birth]

  /** What setNextEvent settles on: the death time after check_for_death, and the time and
      type of the one event it schedules. */
  datatype Schedule = Schedule(tDie: ExtReal, time: ExtReal, kind: EventType)

  /** check_for_death(t, tNext): `t_die` takes the predicted death time only when there is one
      and it is strictly before `t_move`. */
  function CheckedDie(tMove: real, tDie: ExtReal, death: ExtReal): (d: ExtReal)
    ensures d == tDie || (d == death && death != NegInf && Lt(death, Fin(tMove)))
    ensures death != NegInf && Lt(death, Fin(tMove)) ==> d == death
  {
    if death != NegInf && Lt(death, Fin(tMove)) then death else tDie
  }

  /** setNextEvent(t): pick the earliest pending time, predict death against it, then pick
      the earliest pending time again. `t_move` is always finite, so a minimum exists. */
  function NextSchedule(tMove: real, tDie: ExtReal, tReproduce: ExtReal, tBirth: ExtReal,
                        sugar: real, metab: real, t: real): (r: Result<Schedule, Fault>)
    requires tDie != NegInf && tReproduce != NegInf && tBirth != NegInf
  {
    var p0 := Pending(tMove, tDie, tReproduce, tBirth);
    assert p0[0] != PosInf;
    var first := p0[ArgMin(p0)];
    assert first.Fin?;
    match ComputeDeath(sugar, metab, t, first.r)
    case Failure(e) => Failure(e)
    case Success(death) =>
      var die := CheckedDie(tMove, tDie, death);
      var p := Pending(tMove, die, tReproduce, tBirth);
      assert p[0] != PosInf;
      var k := ArgMin(p);
      assert Le(p[k], p[0]);
      Success(Schedule(die, p[k], EventOrder[k]))
  }

  /** What setNextEvent promises: the scheduled event is the earliest pending one (its time
      is finite and no later than `t_move`), the death time is either kept or replaced by an
      earlier-than-move prediction, and it fails exactly when compute_death fails. */
  lemma NextScheduleIsEarliest(tMove: real, tDie: ExtReal, tReproduce: ExtReal, tBirth: ExtReal,
                               sugar: real, metab: real, t: real)
    requires tDie != NegInf && tReproduce != NegInf && tBirth != NegInf
    ensures var r := NextSchedule(tMove, tDie, tReproduce, tBirth, sugar, metab, t);
      r.Success? ==>
      var p := Pending(tMove, r.value.tDie, tReproduce, tBirth);
      && SomeBelowInf(p)
      && r.value.time == p[ArgMin(p)] && r.value.kind == EventOrder[ArgMin(p)]
      && r.value.time.Fin? && Le(r.value.time, Fin(tMove))
      && (forall i :: 0 <= i < 4 ==> Le(r.value.time, p[i]))
    ensures var r := NextSchedule(tMove, tDie, tReproduce, tBirth, sugar, metab, t);
      r.Success? ==> r.value.tDie == tDie || (r.value.tDie.Fin? && Lt(r.value.tDie, Fin(tMove)))
    ensures var r := NextSchedule(tMove, tDie, tReproduce, tBirth, sugar, metab, t);
      r.Failure? <==>
      var p := Pending(tMove, tDie, tReproduce, tBirth);
      SomeBelowInf(p) && p[ArgMin(p)].Fin? && ComputeDeath(sugar, metab, t, p[ArgMin(p)].r).Failure?
  {
    var p0 := Pending(tMove, tDie, tReproduce, tBirth);
    assert p0[0] != PosInf;
    var r := NextSchedule(tMove, tDie, tReproduce, tBirth, sugar, metab, t);
    if r.Success? {
      var p := Pending(tMove, r.value.tDie, tReproduce, tBirth);
      assert p[0] != PosInf;
    }
  }

  /** A new agent (no death or birth pending, the move and the first reproduce both after
      `t`, a non-zero metabolism) always gets its first event: compute_death is asked about a
      time after `t` and cannot divide by zero. */
  lemma FreshAgentSchedules(tMove: real, tReproduce: real, sugar: real, metab: real, t: real)
    requires t < tMove && t < tReproduce && metab != 0.0
    ensures NextSchedule(tMove, PosInf, Fin(tReproduce), PosInf, sugar, metab, t).Success?
  {
  }

  /** Ties among the pending times go in the order MOVE, DIE, REPRODUCE, BIRTH. */
  lemma TiesFollowEventOrder(tMove: real, tDie: ExtReal, tReproduce: ExtReal, tBirth: ExtReal, i: nat, j: nat)
    requires i < j < 4
    requires var p := Pending(tMove, tDie, tReproduce, tBirth); p[i] == p[j] && forall k :: 0 <= k < 4 ==> Le(p[i], p[k])
    ensures var p := Pending(tMove, tDie, tReproduce, tBirth); SomeBelowInf(p) && ArgMin(p) <= i
  {
    var p := Pending(tMove, tDie, tReproduce, tBirth);
    assert p[0] != PosInf;
  }

  /** _maximum_pair on two candidates, as birth uses it: the second one wins only when it is
      strictly larger; when both are `-inf` nothing is above `-inf` and `results[0]` is taken. */
  lemma TwoWayMaximum(a: ExtReal, b: ExtReal)
    ensures SomeAboveNegInf([a, b]) <==> a != NegInf || b != NegInf
    ensures SomeAboveNegInf([a, b]) ==> ArgMax([a, b]) == if Lt(a, b) then 1 else 0
  {
    var v := [a, b];
    assert v[0] == a && v[1] == b;
    assert v[..1] == [a] && v[..1][0] == a;
    if a != NegInf {
      assert SomeAboveNegInf(v[..1]);
      assert v[..1][..0] == [];
      assert ArgMax(v[..1]) == 0;
    } else if b != NegInf {
      assert !SomeAboveNegInf(v[..1]);
    }
  }
}

/** The event list of event.py: a plain Python list of Event records, appended to, scanned
    linearly for the earliest time, popped by index and "removed by value". */
module Events {
  import opened Wrappers
  import opened ExtReals

  /** Event.MOVE, Event.DIE, Event.REPRODUCE, Event.BIRTH. */
  datatype EventType = Move | Die | Reproduce | Birth

  /** Event(time, type, agent); `A` is the agent type. */
  datatype Event<A> = Event(time: ExtReal, kind: EventType, agent: A)

  /** The event times, in calendar order. */
  function Times<A>(cal: seq<Event<A>>): (ts: seq<ExtReal>)
    ensures |ts| == |cal|
    ensures forall i :: 0 <= i < |cal| ==> ts[i] == cal[i].time
  {
    seq(|cal|, i requires 0 <= i < |cal| => cal[i].time)
  }

  /** The times a `time < minTime and type == kind` scan can react to: events of another kind
      are masked to `inf`, which is never `< minTime`. */
  function KindTimes<A>(cal: seq<Event<A>>, kind: EventType): (ts: seq<ExtReal>)
    ensures |ts| == |cal|
    ensures forall i :: 0 <= i < |cal| ==> ts[i] == if cal[i].kind == kind then cal[i].time else PosInf
  {
    seq(|cal|, i requires 0 <= i < |cal| => if cal[i].kind == kind then cal[i].time else PosInf)
  }

  /** The value `remove_agent` compares calendar entries with. The source passes an agent,
      while every entry of the list is an Event record. */
  datatype Probe<A> = EventProbe(event: Event<A>) | AgentProbe(agent: A)

  /** Python `==` between a calendar entry and the probe. Event defines no `__eq__`, so the
      source compares object identity; here value equality of the records stands in for it.
      The two agree on the only probe the source passes, an agent: an Event object is never
      the Agent object. An event probe would also match equal records that identity tells
      apart; get_next_event pops by index, so it needs no probe. */
  predicate Matches<A(==)>(e: Event<A>, p: Probe<A>)
  {
    p == EventProbe(e)
  }

  /** `list.count(p)`. */
  function CountMatches<A(==)>(cal: seq<Event<A>>, p: Probe<A>): nat
  {
    if cal == [] then 0 else (if Matches(cal[0], p) then 1 else 0) + CountMatches(cal[1..], p)
  }

  /** The entries that do not compare equal to `p`, in order. */
  function Unmatched<A(==)>(cal: seq<Event<A>>, p: Probe<A>): seq<Event<A>>
  {
    if cal == [] then [] else (if Matches(cal[0], p) then [] else [cal[0]]) + Unmatched(cal[1..], p)
  }

  /** Index of the first entry equal to `p`: what `list.remove(p)` deletes. */
  function FirstMatch<A(==)>(cal: seq<Event<A>>, p: Probe<A>): (k: nat)
    requires CountMatches(cal, p) > 0
    ensures k < |cal| && Matches(cal[k], p)
    ensures forall j :: 0 <= j < k ==> !Matches(cal[j], p)
  {
    if Matches(cal[0], p) then 0 else 1 + FirstMatch(cal[1..], p)
  }

  /** The events that do not belong to `agent`, in order: what removing an agent's events is
      meant to leave. */
  function OtherAgents<A(==)>(cal: seq<Event<A>>, agent: A): (r: seq<Event<A>>)
    ensures |r| <= |cal|
    ensures forall i :: 0 <= i < |r| ==> r[i] in cal && r[i].agent != agent
    ensures forall i :: 0 <= i < |cal| && cal[i].agent != agent ==> cal[i] in r
  {
    if cal == [] then []
    else (if cal[0].agent == agent then [] else [cal[0]]) + OtherAgents(cal[1..], agent)
  }

  lemma {:induction false} UnmatchedConcat<A>(c1: seq<Event<A>>, c2: seq<Event<A>>, p: Probe<A>)
    ensures Unmatched(c1 + c2, p) == Unmatched(c1, p) + Unmatched(c2, p)
    ensures CountMatches(c1 + c2, p) == CountMatches(c1, p) + CountMatches(c2, p)
  {
    if c1 != [] {
      assert (c1 + c2)[1..] == c1[1..] + c2;
      UnmatchedConcat(c1[1..], c2, p);
    } else {
      assert c1 + c2 == c2;
    }
  }

  lemma {:induction false} NoMatchesUnmatched<A>(cal: seq<Event<A>>, p: Probe<A>)
    requires CountMatches(cal, p) == 0
    ensures Unmatched(cal, p) == cal
  {
    if cal != [] {
      NoMatchesUnmatched(cal[1..], p);
    }
  }

  /** `list.remove(p)` takes one match away and keeps every other entry in order. */
  lemma RemoveFirstMatch<A>(cal: seq<Event<A>>, p: Probe<A>)
    requires CountMatches(cal, p) > 0
    ensures var k := FirstMatch(cal, p);
      && Unmatched(cal[..k] + cal[k+1..], p) == Unmatched(cal, p)
      && CountMatches(cal[..k] + cal[k+1..], p) == CountMatches(cal, p) - 1
  {
    var k := FirstMatch(cal, p);
    assert cal == cal[..k] + ([cal[k]] + cal[k+1..]);
    UnmatchedConcat(cal[..k], [cal[k]] + cal[k+1..], p);
    UnmatchedConcat([cal[k]], cal[k+1..], p);
    UnmatchedConcat(cal[..k], cal[k+1..], p);
    assert [cal[k]][1..] == [];
  }

  /** No calendar entry ever equals an agent probe, so "removing" one keeps everything. */
  lemma {:induction false} AgentProbeMatchesNothing<A>(cal: seq<Event<A>>, agent: A)
    ensures CountMatches(cal, AgentProbe(agent)) == 0
    ensures Unmatched(cal, AgentProbe(agent)) == cal
  {
    if cal != [] {
      AgentProbeMatchesNothing(cal[1..], agent);
    }
  }

  /** remove_agent as written: an event of `agent` that was pending is still pending. */
  lemma RemoveAgentLeavesAgentsEvents<A>(cal: seq<Event<A>>, agent: A, k: nat)
    requires k < |cal| && cal[k].agent == agent
    ensures cal[k] in Unmatched(cal, AgentProbe(agent))
    ensures cal[k].agent == agent
  {
    AgentProbeMatchesNothing(cal, agent);
  }

  /** The corrected removal keeps the surviving events in their calendar order. */
  lemma {:induction false} OtherAgentsConcat<A>(c1: seq<Event<A>>, c2: seq<Event<A>>, agent: A)
    ensures OtherAgents(c1 + c2, agent) == OtherAgents(c1, agent) + OtherAgents(c2, agent)
  {
    if c1 != [] {
      assert (c1 + c2)[1..] == c1[1..] + c2;
      OtherAgentsConcat(c1[1..], c2, agent);
    } else {
      assert c1 + c2 == c2;
    }
  }

  /** Popping index `k` takes exactly that event out of the multiset of pending events. */
  lemma PopRemovesOne<A>(cal: seq<Event<A>>, k: nat)
    requires k < |cal|
    ensures multiset(cal[..k] + cal[k+1..]) + multiset{cal[k]} == multiset(cal)
    ensures |cal[..k] + cal[k+1..]| == |cal| - 1
  {
    assert cal == cal[..k] + [cal[k]] + cal[k+1..];
  }

  /** EventCalendar: `calendar` is the list of pending events, in insertion order. */
  class EventCalendar<A(==)> {
    var calendar: seq<Event<A>>

    constructor ()
      ensures calendar == []
    {
      calendar := [];
    }

    /** add: append at the end. */
    method Add(event: Event<A>)
      modifies this`calendar
      ensures calendar == old(calendar) + [event]
    {
      calendar := calendar + [event];
    }

    /** getMinEvent: the earliest event, the first-added one among equal times; popped when
        `doPop`. With every pending time `inf`, `minIndex` stays `inf` and the source fails
        indexing the list with it, hence the precondition. */
    method GetMinEvent(doPop: bool) returns (r: Option<Event<A>>)
      requires calendar != [] ==> SomeBelowInf(Times(calendar))
      modifies this`calendar
      ensures old(calendar) == [] ==> r == None && calendar == []
      ensures old(calendar) != [] ==>
        var k := ArgMin(Times(old(calendar)));
        && r == Some(old(calendar)[k])
        && calendar == if doPop then old(calendar)[..k] + old(calendar)[k+1..] else old(calendar)
    {
      if |calendar| > 0 {
        ghost var ts := Times(calendar);
        var minTime, minIndex: Option<nat> := PosInf, None;
        for i := 0 to |calendar|
          invariant calendar == old(calendar)
          invariant SomeBelowInf(ts[..i]) ==>
            minIndex == Some(ArgMin(ts[..i])) && minTime == ts[ArgMin(ts[..i])]
          invariant !SomeBelowInf(ts[..i]) ==> minIndex == None && minTime == PosInf
        {
          ArgMinStep(ts, i);
          var event := calendar[i];
          if Lt(event.time, minTime) {
            minTime := event.time;
            minIndex := Some(i);
          }
        }
        assert ts[..|calendar|] == ts;
        var k := minIndex.value;
        r := Some(calendar[k]);
        if doPop {
          calendar := calendar[..k] + calendar[k+1..];
        }
      } else {
        r := None;
      }
    }

    /** The generic `for i in range(calendar.count(p)): calendar.remove(p)`. */
    method RemoveMatching(p: Probe<A>)
      modifies this`calendar
      ensures calendar == Unmatched(old(calendar), p)
    {
      var n := CountMatches(calendar, p);
      for i := 0 to n
        invariant CountMatches(calendar, p) == n - i
        invariant Unmatched(calendar, p) == Unmatched(old(calendar), p)
      {
        RemoveFirstMatch(calendar, p);
        var k := FirstMatch(calendar, p);
        calendar := calendar[..k] + calendar[k+1..];
      }
      NoMatchesUnmatched(calendar, p);
    }

    /** remove_agent, as written: the list is searched for the agent itself, which no Event
        equals, so the calendar is left as it was. */
    method RemoveAgent(agent: A)
      modifies this`calendar
      ensures calendar == old(calendar)
    {
      AgentProbeMatchesNothing(calendar, agent);
      RemoveMatching(AgentProbe(agent));
    }

    /** What remove_agent is documented to do ("Remove events relating to given Agent"):
        drop every event of `agent`, keeping the others in order. */
    method RemoveEventsOf(agent: A)
      modifies this`calendar
      ensures calendar == OtherAgents(old(calendar), agent)
      ensures forall e :: e in calendar ==> e.agent != agent
    {
      calendar := OtherAgents(calendar, agent);
    }

    /** next_by_type: the earliest event of `kind` with a time below `inf`, the first one among
        equal times; None when there is none. The calendar is only read. */
    method NextByType(kind: EventType) returns (r: Option<Event<A>>)
      ensures r.None? <==> forall e :: e in calendar && e.kind == kind ==> e.time == PosInf
      ensures r.Some? ==>
        && SomeBelowInf(KindTimes(calendar, kind))
        && r.value == calendar[ArgMin(KindTimes(calendar, kind))]
      ensures r.Some? ==>
        && r.value in calendar && r.value.kind == kind && r.value.time != PosInf
        && forall e :: e in calendar && e.kind == kind ==> Le(r.value.time, e.time)
    {
      ghost var ts := KindTimes(calendar, kind);
      if |calendar| > 0 {
        var minTime, minEvent: Option<Event<A>> := PosInf, None;
        for i := 0 to |calendar|
          invariant SomeBelowInf(ts[..i]) ==>
            minEvent == Some(calendar[ArgMin(ts[..i])]) && minTime == ts[ArgMin(ts[..i])]
          invariant !SomeBelowInf(ts[..i]) ==> minEvent == None && minTime == PosInf
        {
          ArgMinStep(ts, i);
          var event := calendar[i];
          if Lt(event.time, minTime) && event.kind == kind {
            minEvent := Some(event);
            minTime := event.time;
          }
        }
        assert ts[..|calendar|] == ts;
        r := minEvent;
      } else {
        r := None;
      }
      if r.Some? {
        var k := ArgMin(ts);
        forall e | e in calendar && e.kind == kind ensures Le(r.value.time, e.time) {
          var j :| 0 <= j < |calendar| && calendar[j] == e;
          assert ts[j] == e.time;
        }
      } else {
        forall e | e in calendar && e.kind == kind ensures e.time == PosInf {
          var j :| 0 <= j < |calendar| && calendar[j] == e;
          assert ts[j] == e.time;
        }
      }
    }
  }
}

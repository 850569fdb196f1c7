/** AgentList of agent.py: the population set, its id counter, and the statistics over it. */
module Population {
  import opened Wrappers
  import opened Events
  import opened World
  import Stats

  /** Which of AgentList.SUGAR, METABOLISM and VISION is asked for. */
  datatype Stat = SugarStat | Metabolism | VisionStat

  /** `stat(agent)`. */
  function StatOf(a: Agent, stat: Stat): real
    reads a`sugar
  {
    match stat
    case SugarStat => a.sugar
    case Metabolism => a.metab
    case VisionStat => a.vision as real
  }

  /** The statistic of each agent of `l`, in order. */
  function StatKeys(l: seq<Agent>, stat: Stat): (ks: seq<real>)
    reads l
    ensures |ks| == |l|
  {
    if l == [] then [] else [StatOf(l[0], stat)] + StatKeys(l[1..], stat)
  }

  lemma {:induction false} StatKeysAt(l: seq<Agent>, stat: Stat, i: nat)
    requires i < |l|
    ensures StatKeys(l, stat)[i] == StatOf(l[i], stat)
  {
    if i > 0 {
      StatKeysAt(l[1..], stat, i - 1);
    }
  }

  /** The sum of the statistic over a set, whatever order it is taken in. */
  ghost function StatSum(s: set<Agent>, stat: Stat): real
    reads s
    decreases |s|
  {
    if s == {} then 0.0
    else
      var a :| a in s;
      StatOf(a, stat) + StatSum(s - {a}, stat)
  }

  /** Any member may be taken out of StatSum first. */
  lemma {:induction false} StatSumRemove(s: set<Agent>, a: Agent, stat: Stat)
    requires a in s
    ensures StatSum(s, stat) == StatOf(a, stat) + StatSum(s - {a}, stat)
    decreases |s|
  {
    var b :| b in s && StatSum(s, stat) == StatOf(b, stat) + StatSum(s - {b}, stat);
    if b != a {
      StatSumRemove(s - {b}, a, stat);
      StatSumRemove(s - {a}, b, stat);
      assert s - {b} - {a} == s - {a} - {b};
    }
  }

  /** Summing along any listing of the set gives StatSum. */
  lemma {:induction false} StatSumOfListing(l: seq<Agent>, s: set<Agent>, stat: Stat)
    requires multiset(l) == multiset(s)
    ensures Stats.Sum(StatKeys(l, stat)) == StatSum(s, stat)
    decreases |l|
  {
    if l == [] {
      assert |multiset(s)| == 0;
    } else {
      var a := l[0];
      assert a in multiset(l);
      assert a in s;
      assert l == [a] + l[1..];
      assert multiset(l) == multiset(l[1..]) + multiset{a};
      assert s == (s - {a}) + {a};
      assert multiset(s) == multiset(s - {a}) + multiset{a};
      Stats.MultisetCancel(multiset(l[1..]), multiset(s - {a}), a);
      StatSumOfListing(l[1..], s - {a}, stat);
      StatSumRemove(s, a, stat);
    }
  }

  /** Some listing of the set, each member once. */
  ghost function Listing(s: set<Agent>): (l: seq<Agent>)
    ensures multiset(l) == multiset(s) && forall a :: a in l ==> a in s
    decreases |s|
  {
    if s == {} then []
    else
      var a :| a in s;
      assert s == (s - {a}) + {a};
      Listing(s - {a}) + [a]
  }

  /** The pairs `(stat(agent), agent)` that `list.sort(key=stat)` compares. */
  function Tagged(l: seq<Agent>, stat: Stat): (t: seq<(real, Agent)>)
    reads l
    ensures |t| == |l|
  {
    if l == [] then [] else [(StatOf(l[0], stat), l[0])] + Tagged(l[1..], stat)
  }

  lemma {:induction false} TaggedAt(l: seq<Agent>, stat: Stat, i: nat)
    requires i < |l|
    ensures Tagged(l, stat)[i] == (StatOf(l[i], stat), l[i])
  {
    if i > 0 {
      TaggedAt(l[1..], stat, i - 1);
    }
  }

  /** Listings with the same members have tagged pairs with the same members. */
  lemma {:induction false} TaggedMultiset(l: seq<Agent>, m: seq<Agent>, stat: Stat)
    requires multiset(l) == multiset(m)
    ensures multiset(Tagged(l, stat)) == multiset(Tagged(m, stat))
    decreases |l|
  {
    if l == [] {
      assert |multiset(m)| == 0;
    } else {
      var x := l[0];
      assert x in multiset(m);
      var i :| 0 <= i < |m| && m[i] == x;
      var rest := m[..i] + m[i+1..];
      assert multiset(l[1..]) == multiset(rest) by {
        Stats.RemoveAtAdds(m, i);
        assert l == [x] + l[1..];
        Stats.MultisetCancel(multiset(l[1..]), multiset(rest), x);
      }
      TaggedMultiset(l[1..], rest, stat);
      TaggedRemoveAt(m, stat, i);
      TaggedHead(l, stat);
      Stats.MultisetRejoin(multiset(Tagged(l, stat)), multiset(Tagged(l[1..], stat)),
        multiset(Tagged(rest, stat)), multiset(Tagged(m, stat)), (StatOf(x, stat), x));
    }
  }

  lemma TaggedHead(l: seq<Agent>, stat: Stat)
    requires l != []
    ensures multiset(Tagged(l, stat)) == multiset{(StatOf(l[0], stat), l[0])} + multiset(Tagged(l[1..], stat))
  {
    assert Tagged(l, stat) == [(StatOf(l[0], stat), l[0])] + Tagged(l[1..], stat);
  }

  lemma {:induction false} TaggedConcat(l: seq<Agent>, m: seq<Agent>, stat: Stat)
    ensures Tagged(l + m, stat) == Tagged(l, stat) + Tagged(m, stat)
    decreases |l|
  {
    if l == [] {
      assert l + m == m;
    } else {
      assert (l + m)[0] == l[0] && (l + m)[1..] == l[1..] + m;
      TaggedConcat(l[1..], m, stat);
    }
  }

  lemma TaggedRemoveAt(m: seq<Agent>, stat: Stat, i: nat)
    requires i < |m|
    ensures multiset(Tagged(m, stat))
      == multiset(Tagged(m[..i] + m[i+1..], stat)) + multiset{(StatOf(m[i], stat), m[i])}
  {
    Stats.SplitAt(m, i);
    TaggedConcat(m[..i] + [m[i]], m[i+1..], stat);
    TaggedConcat(m[..i], [m[i]], stat);
    TaggedConcat(m[..i], m[i+1..], stat);
    assert Tagged([m[i]], stat) == [(StatOf(m[i], stat), m[i])];
  }

  /** Every pair of Tagged carries its agent's statistic. */
  lemma TaggedKeys(l: seq<Agent>, stat: Stat, p: (real, Agent))
    requires p in multiset(Tagged(l, stat))
    ensures p.0 == StatOf(p.1, stat) && p.1 in l
  {
    var t := Tagged(l, stat);
    var j :| 0 <= j < |t| && t[j] == p;
    TaggedAt(l, stat, j);
  }

  /** The agents of the sorted pairs, in order. */
  function Items(s: seq<(real, Agent)>): (l: seq<Agent>)
    ensures |l| == |s|
  {
    if s == [] then [] else [s[0].1] + Items(s[1..])
  }

  lemma {:induction false} ItemsAt(s: seq<(real, Agent)>, i: nat)
    requires i < |s|
    ensures Items(s)[i] == s[i].1
  {
    if i > 0 {
      ItemsAt(s[1..], i - 1);
    }
  }

  lemma {:induction false} ItemsConcat(s: seq<(real, Agent)>, t: seq<(real, Agent)>)
    ensures Items(s + t) == Items(s) + Items(t)
    decreases |s|
  {
    if s == [] {
      assert s + t == t;
    } else {
      assert (s + t)[0] == s[0] && (s + t)[1..] == s[1..] + t;
      ItemsConcat(s[1..], t);
    }
  }

  lemma ItemsRemoveAt(t: seq<(real, Agent)>, i: nat)
    requires i < |t|
    ensures multiset(Items(t)) == multiset(Items(t[..i] + t[i+1..])) + multiset{t[i].1}
  {
    Stats.SplitAt(t, i);
    ItemsConcat(t[..i] + [t[i]], t[i+1..]);
    ItemsConcat(t[..i], [t[i]]);
    ItemsConcat(t[..i], t[i+1..]);
    assert Items([t[i]]) == [t[i].1];
  }

  /** The statistic over the set in ascending order. Python's sort is stable, so agents with
      equal values may come in any order, but the values themselves do not depend on the order
      the set is listed in (Stats.SortedKeysOrderIndependent). */
  ghost function SortedStats(s: set<Agent>, stat: Stat): (ks: seq<real>)
    reads s
    ensures |ks| == |s|
  {
    assert |Listing(s)| == |multiset(Listing(s))| == |multiset(s)| == |s|;
    Stats.Keys(Stats.SortByKey(Tagged(Listing(s), stat), false))
  }

  /** Raised by full_add when the agent's cell cannot take it. */
  datatype AddFault = CannotPut

  class AgentList {
    var currentId: nat
    var agentList: set<Agent>

    /** Every listed agent has an id below the counter, and no two share one. */
    ghost predicate Valid()
      reads this, agentList`id
    {
      && (forall a :: a in agentList ==> a.id.Some? && a.id.value < currentId)
      && (forall a, b :: a in agentList && b in agentList && a.id == b.id ==> a == b)
    }

    /** AgentList with no initial agents. */
    constructor ()
      ensures currentId == 0 && agentList == {} && Valid()
    {
      currentId := 0;
      agentList := {};
    }

    /** add(agent): the agent gets the current counter value as its id, joins the set, and the
        counter moves on; so ids stay unique, and the new one is above every earlier one. */
    method Add(agent: Agent)
      requires Valid()
      modifies this, agent`id
      ensures agent.id == Some(old(currentId)) && currentId == old(currentId) + 1
      ensures agentList == old(agentList) + {agent}
      ensures forall a :: a in agentList && a != agent ==> a.id == old(a.id) && a.id.value < agent.id.value
      ensures Valid()
    {
      agent.id := Some(currentId);
      agentList := agentList + {agent};
      currentId := currentId + 1;
    }

    /** full_add(agent, landscape): add, then put the agent on its cell. When that cell is off
        the grid or taken, the source raises (after the add), which is the failure here. */
    method FullAdd(agent: Agent, land: Landscape) returns (r: Result<(), AddFault>)
      requires Valid() && land.Shape()
      modifies this, agent`id, agent`col, agent`row, land.cells`agent
      ensures agent.id == Some(old(currentId)) && currentId == old(currentId) + 1
      ensures agentList == old(agentList) + {agent} && Valid()
      ensures r.Success? <==> old(land.ValidCoord(agent.col, agent.row) && land.IsEmpty(agent.col, agent.row))
      ensures r.Success? ==> land.ValidCoord(agent.col, agent.row) && land.GetCell(agent.col, agent.row).agent == agent
      ensures r.Failure? ==> agent.col == old(agent.col) && agent.row == old(agent.row)
      ensures forall c :: c in land.cells && (r.Failure? || c != land.GetCell(agent.col, agent.row)) ==>
        c.agent == old(c.agent)
    {
      Add(agent);
      var ok := land.Put(agent, agent.col, agent.row);
      r := if ok then Success(()) else Failure(CannotPut);
    }

    /** get_by_id(id): a listed agent with that id, None when there is none. */
    method GetById(id: Option<nat>) returns (found: Agent?)
      ensures found != null ==> found in agentList && found.id == id
      ensures found == null ==> forall a :: a in agentList ==> a.id != id
      ensures found != null && Valid() ==> forall a :: a in agentList && a.id == id ==> a == found
    {
      var rest := agentList;
      while rest != {}
        invariant rest <= agentList
        invariant forall a :: a in agentList && a !in rest ==> a.id != id
        decreases |rest|
      {
        var a :| a in rest;
        if a.id == id {
          return a;
        }
        rest := rest - {a};
      }
      return null;
    }

    /** remove(agent, calendar, landscape): a listed agent leaves its cell and the set;
        anything else is ignored. remove_agent as written leaves the calendar as it was
        (Events.EventCalendar.RemoveAgent), so the agent's pending events stay. */
    method Remove(agent: Agent, calendar: EventCalendar<Agent>, land: Landscape)
      requires land.Shape()
      requires agent in agentList ==>
        && 0 <= agent.col + land.cols && agent.col < land.cols && 0 <= agent.row + land.rows && agent.row < land.rows
        && (land.ValidCoord(agent.col, agent.row) || land.IsEmpty(agent.col, agent.row))
      modifies this`agentList, calendar`calendar, land.cells`agent
      ensures agentList == old(agentList) - {agent}
      ensures calendar.calendar == old(calendar.calendar)
      ensures agent in old(agentList) ==>
        && (land.ValidCoord(agent.col, agent.row) ==> land.grid[agent.row][agent.col].agent == null)
        && forall c :: c in land.cells && c != land.GetCell(agent.col, agent.row) ==> c.agent == old(c.agent)
      ensures agent !in old(agentList) ==> forall c :: c in land.cells ==> c.agent == old(c.agent)
    {
      if agent in agentList {
        land.Remove(agent.col, agent.row);
        calendar.RemoveAgent(agent);
        agentList := agentList - {agent};
      }
    }

    /** remove with the calendar removal remove_agent is documented to do: the agent's events
        go too, so none of them is left to fire. */
    method RemoveCorrected(agent: Agent, calendar: EventCalendar<Agent>, land: Landscape)
      requires land.Shape()
      requires agent in agentList ==>
        && 0 <= agent.col + land.cols && agent.col < land.cols && 0 <= agent.row + land.rows && agent.row < land.rows
        && (land.ValidCoord(agent.col, agent.row) || land.IsEmpty(agent.col, agent.row))
      modifies this`agentList, calendar`calendar, land.cells`agent
      ensures agentList == old(agentList) - {agent}
      ensures agent in old(agentList) ==>
        && calendar.calendar == OtherAgents(old(calendar.calendar), agent)
        && (forall e :: e in calendar.calendar ==> e.agent != agent)
        && (land.ValidCoord(agent.col, agent.row) ==> land.grid[agent.row][agent.col].agent == null)
        && forall c :: c in land.cells && c != land.GetCell(agent.col, agent.row) ==> c.agent == old(c.agent)
      ensures agent !in old(agentList) ==>
        calendar.calendar == old(calendar.calendar) && forall c :: c in land.cells ==> c.agent == old(c.agent)
    {
      if agent in agentList {
        land.Remove(agent.col, agent.row);
        calendar.RemoveEventsOf(agent);
        agentList := agentList - {agent};
      }
    }

    /** average(stat): 0 for an empty population, else the sum over the set by its size. */
    method Average(stat: Stat) returns (r: real)
      ensures r == if agentList == {} then 0.0 else StatSum(agentList, stat) / |agentList| as real
    {
      if |agentList| == 0 {
        return 0.0;
      }
      var aSum := 0.0;
      var rest := agentList;
      while rest != {}
        invariant rest <= agentList
        invariant aSum + StatSum(rest, stat) == StatSum(agentList, stat)
        decreases |rest|
      {
        var a :| a in rest;
        StatSumRemove(rest, a, stat);
        aSum := aSum + StatOf(a, stat);
        rest := rest - {a};
      }
      r := aSum / |agentList| as real;
    }

    /** `list(self.agentList)`: the members in some order, each once. */
    method ToList() returns (l: seq<Agent>)
      ensures multiset(l) == multiset(agentList)
    {
      l := [];
      var rest := agentList;
      while rest != {}
        invariant rest <= agentList
        invariant multiset(l) + multiset(rest) == multiset(agentList)
        decreases |rest|
      {
        var a :| a in rest;
        assert rest == (rest - {a}) + {a};
        l := l + [a];
        rest := rest - {a};
      }
    }

    /** ordered_by(stat, reversed): every agent once, sorted by the statistic, descending for
        `reversed`; ascending, the statistics are SortedStats whatever order the set was listed
        in. */
    method OrderedBy(stat: Stat, reversed: bool) returns (ordered: seq<Agent>)
      ensures multiset(ordered) == multiset(agentList) && |ordered| == |agentList|
      ensures forall i, j :: 0 <= i < j < |ordered| ==>
        !Stats.Before(StatOf(ordered[j], stat), StatOf(ordered[i], stat), reversed)
      ensures !reversed ==> StatKeys(ordered, stat) == SortedStats(agentList, stat)
    {
      var l := ToList();
      var sorted := Stats.SortByKey(Tagged(l, stat), reversed);
      ordered := Items(sorted);
      OrderedFacts(l, stat, reversed, sorted, ordered);
      assert |ordered| == |multiset(ordered)| == |multiset(agentList)| == |agentList|;
      if !reversed {
        ghost var m := Listing(agentList);
        TaggedMultiset(l, m, stat);
        Stats.SortedKeysOrderIndependent(Tagged(l, stat), Tagged(m, stat));
      }
    }

    /** median(stat): 0 for an empty population, else the mean of the ascending statistics at
        `floor(n/2)` and `ceil((n+1)/2)`, None when the second is past the end. */
    method Median(stat: Stat) returns (r: Option<real>)
      ensures r == Stats.MedianOf(SortedStats(agentList, stat))
    {
      var l := |agentList|;
      if l == 0 {
        return Some(0.0);
      }
      var ordered := OrderedBy(stat, false);
      r := MiddleMean(ordered, stat);
    }

    /** median with the indices it evidently means: the middle statistic, or the mean of the
        two middle ones; it splits the ascending statistics in halves. */
    method CorrectedMedian(stat: Stat) returns (r: Option<real>)
      ensures r == Stats.MiddleOf(SortedStats(agentList, stat))
      ensures agentList != {} ==>
        var ks := SortedStats(agentList, stat);
        && (forall i :: 0 <= i < (|ks| + 1) / 2 ==> ks[i] <= r.value)
        && (forall i :: |ks| / 2 <= i < |ks| ==> r.value <= ks[i])
    {
      if |agentList| == 0 {
        return Some(0.0);
      }
      var ordered := OrderedBy(stat, false);
      r := MiddleValue(ordered, stat);
      SortedStatsAscending(agentList, stat);
      Stats.MiddleOfSplits(SortedStats(agentList, stat));
    }
  }

  /** The statistics SortedStats lists are in ascending order. */
  lemma SortedStatsAscending(s: set<Agent>, stat: Stat)
    ensures var ks := SortedStats(s, stat);
      forall i, j :: 0 <= i < j < |ks| ==> ks[i] <= ks[j]
  {
    Stats.AscendingKeys(Stats.SortByKey(Tagged(Listing(s), stat), false));
  }

  /** CorrectedMedian's end, on the ordered agents. */
  method MiddleValue(ordered: seq<Agent>, stat: Stat) returns (r: Option<real>)
    ensures r == Stats.MiddleOf(StatKeys(ordered, stat))
  {
    var n := |ordered|;
    if n == 0 {
      return Some(0.0);
    }
    StatKeysAt(ordered, stat, n / 2);
    if n % 2 == 1 {
      r := Some(StatOf(ordered[n / 2], stat));
    } else {
      StatKeysAt(ordered, stat, n / 2 - 1);
      r := Some((StatOf(ordered[n / 2 - 1], stat) + StatOf(ordered[n / 2], stat)) / 2.0);
    }
  }

  /** The end of median, on the ordered agents: the mean of the statistics at `floor(n/2)` and
      `ceil((n+1)/2)`, None (the caught IndexError) when the second is past the end. */
  method MiddleMean(ordered: seq<Agent>, stat: Stat) returns (r: Option<real>)
    requires |ordered| > 0
    ensures r == Stats.MedianOf(StatKeys(ordered, stat))
  {
    ghost var ks := StatKeys(ordered, stat);
    var bounds := Stats.MedianBounds(|ordered|);
    var lowMid, hiMid := bounds.0, bounds.1;
    if hiMid < |ordered| {
      StatKeysAt(ordered, stat, lowMid);
      StatKeysAt(ordered, stat, hiMid);
      var low, high := StatOf(ordered[lowMid], stat), StatOf(ordered[hiMid], stat);
      Stats.MedianOfMiddle(ks, low, high);
      r := Some((low + high) / 2.0);
    } else {
      r := None;
    }
  }

  /** What ordered_by's sort gives: the agents of `l` once each, ordered by the statistic, with
      the statistics being the keys of the sorted pairs. */
  lemma OrderedFacts(l: seq<Agent>, stat: Stat, reversed: bool, sorted: seq<(real, Agent)>, ordered: seq<Agent>)
    requires sorted == Stats.SortByKey(Tagged(l, stat), reversed) && ordered == Items(sorted)
    ensures multiset(ordered) == multiset(l)
    ensures forall i, j :: 0 <= i < j < |ordered| ==>
      !Stats.Before(StatOf(ordered[j], stat), StatOf(ordered[i], stat), reversed)
    ensures StatKeys(ordered, stat) == Stats.Keys(sorted)
  {
    forall i | 0 <= i < |sorted|
      ensures sorted[i].0 == StatOf(ordered[i], stat)
    {
      assert sorted[i] in multiset(sorted);
      TaggedKeys(l, stat, sorted[i]);
      ItemsAt(sorted, i);
    }
    forall i | 0 <= i < |sorted|
      ensures StatKeys(ordered, stat)[i] == Stats.Keys(sorted)[i]
    {
      StatKeysAt(ordered, stat, i);
      Stats.KeysIndex(sorted, i);
    }
    ItemsMultiset(l, stat, sorted);
  }

  lemma ItemsMultiset(l: seq<Agent>, stat: Stat, sorted: seq<(real, Agent)>)
    requires multiset(sorted) == multiset(Tagged(l, stat))
    ensures multiset(Items(sorted)) == multiset(l)
  {
    ItemsPermute(sorted, Tagged(l, stat));
    forall i | 0 <= i < |l|
      ensures Items(Tagged(l, stat))[i] == l[i]
    {
      TaggedAt(l, stat, i);
      ItemsAt(Tagged(l, stat), i);
    }
    assert Items(Tagged(l, stat)) == l;
  }

  /** Rearranging pairs rearranges their agents alike. */
  lemma {:induction false} ItemsPermute(s: seq<(real, Agent)>, t: seq<(real, Agent)>)
    requires multiset(s) == multiset(t)
    ensures multiset(Items(s)) == multiset(Items(t))
    decreases |s|
  {
    if s == [] {
      assert |multiset(t)| == 0;
    } else {
      var x := s[0];
      assert x in multiset(t);
      var i :| 0 <= i < |t| && t[i] == x;
      var rest := t[..i] + t[i+1..];
      Stats.RemoveAtAdds(t, i);
      assert s == [x] + s[1..];
      assert multiset(s) == multiset(s[1..]) + multiset{x};
      Stats.MultisetCancel(multiset(s[1..]), multiset(rest), x);
      ItemsPermute(s[1..], rest);
      ItemsRemoveAt(t, i);
      assert Items(s) == [x.1] + Items(s[1..]);
    }
  }
}

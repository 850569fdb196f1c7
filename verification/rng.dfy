/** rng.py: a table of named generators. Each new name binds a Generator to the shared Philox
    bit generator at its current position and then replaces the shared one by its `jumped()`
    copy. The bit generator is abstracted as the number of jumps applied to it. */
module Rng {

  /** `Generator(bit)` where `bit` is `Philox(seed)` jumped `jumps` times. */
  datatype Stream = Stream(seed: string, jumps: nat)

  /** The generator table after `expand`/`get` were called with `requests`, in this order. */
  function Replay(seed: string, requests: seq<string>): map<string, Stream>
  {
    if requests == [] then map[]
    else
      var m := Replay(seed, requests[..|requests| - 1]);
      var name := requests[|requests| - 1];
      if name in m then m else m[name := Stream(seed, |m|)]
  }

  /** The distinct names of `requests`, in the order of their first request. */
  function FirstRequests(requests: seq<string>): seq<string>
  {
    if requests == [] then []
    else
      var front := FirstRequests(requests[..|requests| - 1]);
      var name := requests[|requests| - 1];
      if name in front then front else front + [name]
  }

  /** The names of the table are exactly the requested names. */
  lemma {:induction false} ReplayKeys(seed: string, requests: seq<string>)
    ensures Replay(seed, requests).Keys == (set x | x in requests)
  {
    if requests != [] {
      var front := requests[..|requests| - 1];
      ReplayKeys(seed, front);
      assert requests == front + [requests[|requests| - 1]];
      assert (set x | x in requests) == (set x | x in front) + {requests[|requests| - 1]};
    }
  }

  /** The first-request order lists every requested name exactly once. */
  lemma {:induction false} FirstRequestsDistinct(requests: seq<string>)
    ensures (set x | x in FirstRequests(requests)) == (set x | x in requests)
    ensures forall i, j :: 0 <= i < j < |FirstRequests(requests)| ==>
      FirstRequests(requests)[i] != FirstRequests(requests)[j]
  {
    if requests != [] {
      var front := requests[..|requests| - 1];
      var name := requests[|requests| - 1];
      FirstRequestsDistinct(front);
      var o0 := FirstRequests(front);
      assert requests == front + [name];
      assert (set x | x in requests) == (set x | x in front) + {name};
      assert (set x | x in o0 + [name]) == (set x | x in o0) + {name};
    }
  }

  /** The k-th name first requested is bound at jump position k (counting from 0), so the
      positions in use are 0, 1, ..., |table| - 1 and the bit generator has jumped |table| times. */
  lemma {:induction false} ReplayBindsFirstRequests(seed: string, requests: seq<string>)
    ensures var m := Replay(seed, requests); var order := FirstRequests(requests);
      && |order| == |m|
      && (forall k :: 0 <= k < |order| ==> order[k] in m && m[order[k]] == Stream(seed, k))
  {
    if requests != [] {
      var front := requests[..|requests| - 1];
      var name := requests[|requests| - 1];
      ReplayBindsFirstRequests(seed, front);
      ReplayKeys(seed, front);
      FirstRequestsDistinct(front);
      var m0 := Replay(seed, front);
      var o0 := FirstRequests(front);
      assert name in m0 <==> name in o0 by {
        assert name in m0.Keys <==> name in (set x | x in front);
        assert name in o0 <==> name in (set x | x in o0);
      }
      if name !in m0 {
        assert |m0[name := Stream(seed, |m0|)]| == |m0| + 1;
      }
    }
  }

  /** Distinct names are bound to distinct jump positions, all below the number of names. */
  lemma DistinctNamesDistinctStreams(seed: string, requests: seq<string>, a: string, b: string)
    requires a in Replay(seed, requests) && b in Replay(seed, requests) && a != b
    ensures Replay(seed, requests)[a] != Replay(seed, requests)[b]
    ensures Replay(seed, requests)[a].jumps < |Replay(seed, requests)|
  {
    var m := Replay(seed, requests);
    var order := FirstRequests(requests);
    ReplayBindsFirstRequests(seed, requests);
    ReplayKeys(seed, requests);
    FirstRequestsDistinct(requests);
    assert a in (set x | x in order) && b in (set x | x in order);
    var i :| 0 <= i < |order| && order[i] == a;
    var j :| 0 <= j < |order| && order[j] == b;
  }

  /** Later requests never rebind or drop a name: the table only grows. */
  lemma {:induction false} ReplayOnlyGrows(seed: string, requests: seq<string>, more: seq<string>)
    ensures forall n :: n in Replay(seed, requests) ==>
      n in Replay(seed, requests + more) && Replay(seed, requests + more)[n] == Replay(seed, requests)[n]
  {
    if more != [] {
      var front := more[..|more| - 1];
      ReplayOnlyGrows(seed, requests, front);
      var all := requests + more;
      assert all[..|all| - 1] == requests + front;
      assert all[|all| - 1] == more[|more| - 1];
      var m := Replay(seed, requests + front);
      assert Replay(seed, all) == if more[|more| - 1] in m then m else m[more[|more| - 1] := Stream(seed, |m|)];
    } else {
      assert requests + more == requests;
    }
  }

  /** The position a name gets depends on the order of first requests, not only on the set of
      names: two names requested in the opposite order swap streams. */
  lemma FirstRequestOrderMatters(seed: string)
    ensures "a" in Replay(seed, ["a", "b"]) && Replay(seed, ["a", "b"])["a"] == Stream(seed, 0)
    ensures "a" in Replay(seed, ["b", "a"]) && Replay(seed, ["b", "a"])["a"] == Stream(seed, 1)
  {
    assert ["a", "b"][..1] == ["a"] && ["b", "a"][..1] == ["b"];
    assert ["a"][..0] == [] && ["b"][..0] == [];
    assert Replay(seed, ["a"]) == map["a" := Stream(seed, 0)];
    assert Replay(seed, ["b"]) == map["b" := Stream(seed, 0)];
    assert Replay(seed, ["a", "b"]) == map["a" := Stream(seed, 0), "b" := Stream(seed, 1)];
    assert Replay(seed, ["b", "a"]) == map["b" := Stream(seed, 0), "a" := Stream(seed, 1)];
  }

  /** RNG: `bigGen` counts the jumps applied to `big_gen`; `generators` is the dictionary. */
  class RNG {
    const seed: string
    var bigGen: nat
    var generators: map<string, Stream>
    /** Every name passed to `expand` or `get` so far. */
    ghost var requests: seq<string>

    ghost predicate Valid()
      reads this
    {
      generators == Replay(seed, requests) && bigGen == |generators|
    }

    constructor (seed: string)
      ensures Valid() && this.seed == seed
      ensures generators == map[] && bigGen == 0 && requests == []
    {
      this.seed := seed;
      bigGen := 0;
      generators := map[];
      requests := [];
    }

    /** expand: a new name is bound at the current position and the bit generator jumps once;
        a known name changes nothing. */
    method Expand(name: string)
      requires Valid()
      modifies this
      ensures Valid() && requests == old(requests) + [name]
      ensures name in old(generators) ==> generators == old(generators) && bigGen == old(bigGen)
      ensures name !in old(generators) ==>
        && generators == old(generators)[name := Stream(seed, old(bigGen))]
        && bigGen == old(bigGen) + 1
    {
      if name !in generators {
        generators := generators[name := Stream(seed, bigGen)];
        bigGen := bigGen + 1;
      }
      requests := requests + [name];
      assert requests[..|requests| - 1] == old(requests);
    }

    /** get: the generator bound to `name`, created on first use; repeated calls return the
        same generator and leave the table alone. */
    method Get(name: string) returns (g: Stream)
      requires Valid()
      modifies this
      ensures Valid() && requests == old(requests) + [name]
      ensures name in generators && g == generators[name]
      ensures name in old(generators) ==>
        g == old(generators)[name] && generators == old(generators) && bigGen == old(bigGen)
      ensures name !in old(generators) ==>
        g == Stream(seed, old(bigGen)) && bigGen == old(bigGen) + 1
    {
      if name !in generators {
        Expand(name);
      } else {
        requests := requests + [name];
        assert requests[..|requests| - 1] == old(requests);
      }
      g := generators[name];
    }
  }
}

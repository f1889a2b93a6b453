/** The notification hub (`ConnectionManager`): an ordered list of subscriber
    connections, and a fan-out that prunes every connection whose send fails. */
module Hub {

  /** Removing the first occurrence of `x`, or nothing when `x` is absent
      (a membership test guarding `list.remove`). */
  function RemoveFirst<T(==)>(s: seq<T>, x: T): (r: seq<T>)
    ensures x !in s ==> r == s
    ensures x in s ==> |r| == |s| - 1
  {
    if s == [] then []
    else if s[0] == x then s[1..]
    else [s[0]] + RemoveFirst(s[1..], x)
  }

  /** When `x` first occurs at `i`, exactly that element is dropped. */
  lemma {:induction false} RemoveFirstAt<T>(s: seq<T>, x: T, i: nat)
    requires i < |s| && s[i] == x
    requires forall k :: 0 <= k < i ==> s[k] != x
    ensures RemoveFirst(s, x) == s[..i] + s[i + 1..]
  {
    if i > 0 {
      RemoveFirstAt(s[1..], x, i - 1);
      assert s[..i] == [s[0]] + s[1..][..i - 1];
      assert s[i + 1..] == s[1..][i..];
    }
  }

  /** A present handle loses exactly one occurrence and nothing else. */
  lemma {:induction false} RemoveFirstMultiset<T>(s: seq<T>, x: T)
    requires x in s
    ensures multiset(RemoveFirst(s, x)) == multiset(s) - multiset{x}
  {
    assert s == [s[0]] + s[1..];
    if s[0] != x {
      RemoveFirstMultiset(s[1..], x);
    }
  }

  /** Removing from a list with a known head: only the tail changes unless the head is `x`. */
  lemma RemoveFirstCons<T>(y: T, t: seq<T>, x: T)
    ensures RemoveFirst([y] + t, x) == if y == x then t else [y] + RemoveFirst(t, x)
  {
    assert ([y] + t)[0] == y && ([y] + t)[1..] == t;
  }

  /** The handles of `s` whose send fails, in list order (duplicates kept). */
  function StaleOf<T(==)>(s: seq<T>, failing: set<T>): (r: seq<T>)
    ensures |r| <= |s|
    ensures forall k :: 0 <= k < |r| ==> r[k] in failing
  {
    if s == [] then []
    else (if s[0] in failing then [s[0]] else []) + StaleOf(s[1..], failing)
  }

  /** The handles of `s` whose send succeeds, in list order. */
  function Survivors<T(==)>(s: seq<T>, failing: set<T>): (r: seq<T>)
    ensures |r| <= |s|
    ensures forall k :: 0 <= k < |r| ==> r[k] !in failing
  {
    if s == [] then []
    else (if s[0] in failing then [] else [s[0]]) + Survivors(s[1..], failing)
  }

  /** The stale list holds exactly the failing handles of the snapshot. */
  lemma {:induction false} StaleOfMembers<T>(s: seq<T>, failing: set<T>)
    ensures forall c :: c in StaleOf(s, failing) <==> c in s && c in failing
  {
    if s != [] {
      StaleOfMembers(s[1..], failing);
      assert s == [s[0]] + s[1..];
    }
  }

  /** The survivors are exactly the handles of the list whose send does not fail. */
  lemma {:induction false} SurvivorsMembers<T>(s: seq<T>, failing: set<T>)
    ensures forall c :: c in Survivors(s, failing) <==> c in s && c !in failing
  {
    if s != [] {
      SurvivorsMembers(s[1..], failing);
      assert s == [s[0]] + s[1..];
    }
  }

  lemma {:induction false} StaleOfAppend<T>(s: seq<T>, c: T, failing: set<T>)
    ensures StaleOf(s + [c], failing) == StaleOf(s, failing) + (if c in failing then [c] else [])
  {
    if s != [] {
      assert (s + [c])[1..] == s[1..] + [c];
      StaleOfAppend(s[1..], c, failing);
    }
  }

  /** Survivors keep their relative order: the filter distributes over concatenation. */
  lemma {:induction false} SurvivorsAppend<T>(s: seq<T>, t: seq<T>, failing: set<T>)
    ensures Survivors(s + t, failing) == Survivors(s, failing) + Survivors(t, failing)
  {
    if s == [] {
      assert s + t == t;
    } else {
      assert (s + t)[1..] == s[1..] + t;
      SurvivorsAppend(s[1..], t, failing);
    }
  }

  /** Pruning twice prunes nothing more. */
  lemma {:induction false} SurvivorsIdempotent<T>(s: seq<T>, failing: set<T>)
    ensures Survivors(Survivors(s, failing), failing) == Survivors(s, failing)
  {
    if s != [] {
      var u := Survivors(s[1..], failing);
      SurvivorsIdempotent(s[1..], failing);
      if s[0] !in failing {
        assert Survivors(s, failing) == [s[0]] + u;
        assert ([s[0]] + u)[1..] == u;
      } else {
        assert Survivors(s, failing) == [] + u == u;
      }
    }
  }

  /** Every handle of the snapshot is either stale or a survivor. */
  lemma {:induction false} StaleAndSurvivorsPartition<T>(s: seq<T>, failing: set<T>)
    ensures |StaleOf(s, failing)| + |Survivors(s, failing)| == |s|
  {
    if s != [] {
      StaleAndSurvivorsPartition(s[1..], failing);
    }
  }

  /** Disconnecting a handle that was just connected, and was not connected before,
      restores the list. */
  lemma ConnectThenDisconnect<T>(s: seq<T>, x: T)
    requires x !in s
    ensures RemoveFirst(s + [x], x) == s
  {
    RemoveFirstAt(s + [x], x, |s|);
    assert (s + [x])[..|s|] == s;
  }

  /** Disconnecting each handle of `xs` in turn. */
  function RemoveEach<T(==)>(s: seq<T>, xs: seq<T>): (r: seq<T>)
    ensures |s| - |xs| <= |r| <= |s|
    decreases |xs|
  {
    if xs == [] then s else RemoveEach(RemoveFirst(s, xs[0]), xs[1..])
  }

  lemma {:induction false} RemoveEachAppend<T>(s: seq<T>, xs: seq<T>, y: T)
    ensures RemoveEach(s, xs + [y]) == RemoveFirst(RemoveEach(s, xs), y)
    decreases |xs|
  {
    if xs == [] {
      assert xs + [y] == [y];
    } else {
      assert (xs + [y])[1..] == xs[1..] + [y];
      RemoveEachAppend(RemoveFirst(s, xs[0]), xs[1..], y);
    }
  }

  /** Removing handles other than the head leaves the head in place. */
  lemma {:induction false} RemoveEachKeepsHead<T>(x: T, t: seq<T>, xs: seq<T>)
    requires x !in xs
    ensures RemoveEach([x] + t, xs) == [x] + RemoveEach(t, xs)
    decreases |xs|
  {
    if xs != [] {
      RemoveFirstCons(x, t, xs[0]);
      assert xs[0] in xs;
      RemoveEachKeepsHead(x, RemoveFirst(t, xs[0]), xs[1..]);
    }
  }

  /** Disconnecting the stale handles one by one leaves exactly the survivors, in order. */
  lemma {:induction false} PruneStale<T>(s: seq<T>, failing: set<T>)
    ensures RemoveEach(s, StaleOf(s, failing)) == Survivors(s, failing)
  {
    if s != [] {
      var x, t := s[0], s[1..];
      assert s == [x] + t;
      PruneStale(t, failing);
      var rest := StaleOf(t, failing);
      if x in failing {
        assert StaleOf(s, failing) == [x] + rest;
        assert ([x] + rest)[1..] == rest;
        RemoveFirstCons(x, t, x);
        assert RemoveEach(s, [x] + rest) == RemoveEach(t, rest);
        assert Survivors(s, failing) == [] + Survivors(t, failing);
      } else {
        assert StaleOf(s, failing) == [] + rest == rest;
        StaleOfMembers(t, failing);
        assert x !in rest;
        RemoveEachKeepsHead(x, t, rest);
        assert Survivors(s, failing) == [x] + Survivors(t, failing);
      }
    }
  }

  /** The delivery pass of a broadcast: one send attempt per handle of the snapshot, in
      order, collecting the handles whose send fails (those in `failing`). */
  method SendAll<T(==), M>(snapshot: seq<T>, message: M, failing: set<T>) returns (attempted: seq<T>, stale: seq<T>)
    ensures attempted == snapshot
    ensures stale == StaleOf(snapshot, failing)
  {
    attempted, stale := [], [];
    for i := 0 to |snapshot|
      invariant attempted == snapshot[..i]
      invariant stale == StaleOf(snapshot[..i], failing)
    {
      var connection := snapshot[i];
      attempted := attempted + [connection];
      if connection in failing {
        stale := stale + [connection];
      }
      assert snapshot[..i + 1] == snapshot[..i] + [connection];
      StaleOfAppend(snapshot[..i], connection, failing);
    }
    assert snapshot[..|snapshot|] == snapshot;
  }

  /** The hub. A connection handle is compared by identity in `ConnectionManager`; here by `==`. */
  class ConnectionManager<Conn(==)> {
    var activeConnections: seq<Conn>

    constructor ()
      ensures activeConnections == []
    {
      activeConnections := [];
    }

    method Connect(ws: Conn)
      modifies this
      ensures activeConnections == old(activeConnections) + [ws]
    {
      activeConnections := activeConnections + [ws];
    }

    method Disconnect(ws: Conn)
      modifies this
      ensures activeConnections == RemoveFirst(old(activeConnections), ws)
    {
      if ws in activeConnections {
        var i := 0;
        while activeConnections[i] != ws
          invariant 0 <= i < |activeConnections|
          invariant ws in activeConnections[i..]
          invariant forall k :: 0 <= k < i ==> activeConnections[k] != ws
          decreases |activeConnections| - i
        {
          assert activeConnections[i..] == [activeConnections[i]] + activeConnections[i + 1..];
          i := i + 1;
        }
        RemoveFirstAt(activeConnections, ws, i);
        activeConnections := activeConnections[..i] + activeConnections[i + 1..];
      }
    }

    /** Sends `message` to every handle of a snapshot; a send to a handle in `failing`
        fails. The stale handles are then disconnected. Nothing is raised to the caller. */
    method Broadcast<M>(message: M, failing: set<Conn>) returns (attempted: seq<Conn>, stale: seq<Conn>)
      modifies this
      ensures attempted == old(activeConnections)
      ensures stale == StaleOf(old(activeConnections), failing)
      ensures activeConnections == Survivors(old(activeConnections), failing)
    {
      var snapshot := activeConnections;
      attempted, stale := SendAll(snapshot, message, failing);
      assert stale[..0] == [];
      for j := 0 to |stale|
        invariant activeConnections == RemoveEach(snapshot, stale[..j])
      {
        assert stale[..j + 1] == stale[..j] + [stale[j]];
        RemoveEachAppend(snapshot, stale[..j], stale[j]);
        Disconnect(stale[j]);
      }
      assert stale[..|stale|] == stale;
      PruneStale(snapshot, failing);
    }
  }
}

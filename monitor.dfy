/** One iteration of the liveness loop (`ping_loop`): probe every agent of a snapshot,
    turn each outcome into a status update, and broadcast the updates that took effect. */
module Monitor {
  import opened Agents
  import opened Registry
  import opened Hub

  /** The endpoint with every trailing '/' removed. */
  function StripTrailingSlashes(s: string): (r: string)
    ensures |r| <= |s| && r == s[..|r|]
    ensures forall k :: |r| <= k < |s| ==> s[k] == '/'
    ensures r == [] || r[|r| - 1] != '/'
    decreases |s|
  {
    if |s| > 0 && s[|s| - 1] == '/' then StripTrailingSlashes(s[..|s| - 1]) else s
  }

  /** The three properties above pin the stripped string down. */
  lemma StripTrailingSlashesUnique(s: string, r: string)
    requires |r| <= |s| && r == s[..|r|]
    requires forall k :: |r| <= k < |s| ==> s[k] == '/'
    requires r == [] || r[|r| - 1] != '/'
    ensures r == StripTrailingSlashes(s)
  {
  }

  /** The URL probed for an agent. */
  function PingUrl(endpoint: string): (url: string)
    ensures |url| >= 5 && url[|url| - 5..] == "/ping"
    ensures |url| <= |endpoint| + 5
  {
    StripTrailingSlashes(endpoint) + "/ping"
  }

  /** The probe URL is a slash-free prefix of the endpoint followed by "/ping",
      and only slashes of the endpoint are dropped. */
  lemma PingUrlShape(endpoint: string)
    ensures var url := PingUrl(endpoint);
            && |url| >= 5 && url[|url| - 5..] == "/ping"
            && var stem := url[..|url| - 5];
            && stem == endpoint[..|stem|]
            && (stem == [] || stem[|stem| - 1] != '/')
            && forall k :: |stem| <= k < |endpoint| ==> endpoint[k] == '/'
  {
    var stem := StripTrailingSlashes(endpoint);
    assert PingUrl(endpoint)[..|stem|] == stem;
  }

  /** A trailing slash on the endpoint does not change the probe URL. */
  lemma PingUrlIgnoresTrailingSlash(endpoint: string)
    ensures PingUrl(endpoint + "/") == PingUrl(endpoint)
  {
    assert (endpoint + "/")[..|endpoint|] == endpoint;
  }

  /** What one probe produced: a response with its status code (and the clock reading
      the loop takes when the code is 200), or a raised error such as a timeout. */
  datatype ProbeOutcome = Responded(statusCode: int, now: string) | Raised

  /** The event sent to subscribers when `set_status` reports a change. */
  datatype Event = AgentStatusChanged(agent: Agent)

  /** The status and timestamp a probe asks `set_status` for, given the agent as snapshotted. */
  function ProbeTarget(outcome: ProbeOutcome, seen: Agent): (t: (Status, Option<string>))
    ensures t.0 == Active <==> outcome.Responded? && outcome.statusCode == 200
    ensures t.0 == Active ==> t.1 == Some(outcome.now)
    ensures t.0 == Inactive ==> t.1 == seen.lastSeenAt
  {
    match outcome
    case Responded(code, now) => if code == 200 then (Active, Some(now)) else (Inactive, seen.lastSeenAt)
    case Raised => (Inactive, seen.lastSeenAt)
  }

  /** The registry call made for one snapshotted agent. */
  function ProbeStep(agents: seq<Agent>, seen: Agent, outcome: ProbeOutcome): (u: StatusUpdate)
    ensures |u.agents| == |agents|
    ensures u.updated.Some? ==> u.updated.value in u.agents && u.updated.value.id == seen.id
    ensures u.updated.Some? ==> (u.updated.value.status == Active <==> outcome.Responded? && outcome.statusCode == 200)
  {
    var t := ProbeTarget(outcome, seen);
    SetStatusSpec(agents, seen.id, t.0, t.1)
  }

  /** The record an agent would have after its probe, if it were updated. */
  function Settle(a: Agent, outcome: ProbeOutcome): Agent {
    var t := ProbeTarget(outcome, a);
    a.(status := t.0, lastSeenAt := t.1)
  }

  /** Registry contents and emitted events after probing the snapshot in order. */
  datatype Round = Round(agents: seq<Agent>, events: seq<Event>)

  function PingRound(agents: seq<Agent>, snapshot: seq<Agent>, outcomes: seq<ProbeOutcome>): (r: Round)
    requires |outcomes| == |snapshot|
    ensures |r.agents| == |agents|
    ensures |r.events| <= |snapshot|
    decreases |snapshot|
  {
    if snapshot == [] then Round(agents, [])
    else
      var n := |snapshot| - 1;
      var before := PingRound(agents, snapshot[..n], outcomes[..n]);
      var u := ProbeStep(before.agents, snapshot[n], outcomes[n]);
      Round(u.agents, before.events + if u.updated.Some? then [AgentStatusChanged(u.updated.value)] else [])
  }

  /** With unique ids, probing the agent at `i` updates that record and only that one, and
      reports it exactly when its status or timestamp differs from what is asked for. */
  lemma ProbeStepSettles(agents: seq<Agent>, i: nat, outcome: ProbeOutcome)
    requires UniqueIds(agents) && i < |agents|
    ensures var u := ProbeStep(agents, agents[i], outcome);
            && u.agents == agents[i := Settle(agents[i], outcome)]
            && (u.updated.Some? <==> Settle(agents[i], outcome) != agents[i])
            && (u.updated.Some? ==> u.updated.value == Settle(agents[i], outcome))
  {
    FirstIndexIs(agents, agents[i].id, i);
  }

  /** A 200 for an inactive agent makes it active as of now, and is reported once. */
  lemma SuccessfulProbeActivates(agents: seq<Agent>, i: nat, now: string)
    requires UniqueIds(agents) && i < |agents| && agents[i].status == Inactive
    ensures var u := ProbeStep(agents, agents[i], Responded(200, now));
            && u.updated == Some(agents[i].(status := Active, lastSeenAt := Some(now)))
            && u.agents == agents[i := u.updated.value]
  {
    ProbeStepSettles(agents, i, Responded(200, now));
  }

  /** A failed probe of an active agent makes it inactive and keeps its last-seen time. */
  lemma FailedProbeDeactivates(agents: seq<Agent>, i: nat, outcome: ProbeOutcome)
    requires UniqueIds(agents) && i < |agents| && agents[i].status == Active
    requires !(outcome.Responded? && outcome.statusCode == 200)
    ensures var u := ProbeStep(agents, agents[i], outcome);
            && u.updated == Some(agents[i].(status := Inactive))
            && u.updated.value.lastSeenAt == agents[i].lastSeenAt
            && u.agents == agents[i := u.updated.value]
  {
    ProbeStepSettles(agents, i, outcome);
  }

  /** A failed probe of an inactive agent changes nothing and reports nothing. */
  lemma FailedProbeOfInactiveIsQuiet(agents: seq<Agent>, i: nat, outcome: ProbeOutcome)
    requires UniqueIds(agents) && i < |agents| && agents[i].status == Inactive
    requires !(outcome.Responded? && outcome.statusCode == 200)
    ensures ProbeStep(agents, agents[i], outcome) == StatusUpdate(None, agents)
  {
    ProbeStepSettles(agents, i, outcome);
    assert agents[i := agents[i]] == agents;
  }

  /** Deduplication needs both fields equal: a 200 for an active agent is reported exactly
      when the clock reading differs from the stored one. */
  lemma RepeatedSuccessReportsNewTimestamp(agents: seq<Agent>, i: nat, now: string)
    requires UniqueIds(agents) && i < |agents| && agents[i].status == Active
    ensures ProbeStep(agents, agents[i], Responded(200, now)).updated.Some? <==> agents[i].lastSeenAt != Some(now)
  {
    ProbeStepSettles(agents, i, Responded(200, now));
  }

  /** Every record of the registry after its probe. */
  function Settled(agents: seq<Agent>, outcomes: seq<ProbeOutcome>): (r: seq<Agent>)
    requires |outcomes| == |agents|
  {
    seq(|agents|, k requires 0 <= k < |agents| => Settle(agents[k], outcomes[k]))
  }

  /** The events for the records whose probe changed them, in snapshot order. */
  function Changes(agents: seq<Agent>, outcomes: seq<ProbeOutcome>): seq<Event>
    requires |outcomes| == |agents|
    decreases |agents|
  {
    if agents == [] then []
    else
      var n := |agents| - 1;
      var a := Settle(agents[n], outcomes[n]);
      Changes(agents[..n], outcomes[..n]) + if a != agents[n] then [AgentStatusChanged(a)] else []
  }

  /** Unfolding `PingRound` on a prefix one element longer. */
  lemma PingRoundExtend(agents: seq<Agent>, snapshot: seq<Agent>, outcomes: seq<ProbeOutcome>, i: nat)
    requires |outcomes| == |snapshot| && i < |snapshot|
    ensures var before := PingRound(agents, snapshot[..i], outcomes[..i]);
            var u := ProbeStep(before.agents, snapshot[i], outcomes[i]);
            PingRound(agents, snapshot[..i + 1], outcomes[..i + 1])
              == Round(u.agents, before.events + if u.updated.Some? then [AgentStatusChanged(u.updated.value)] else [])
  {
    assert snapshot[..i + 1][..i] == snapshot[..i] && outcomes[..i + 1][..i] == outcomes[..i];
  }

  /** The registry part-way through an iteration: the first `m` records settled, the rest as they were. */
  lemma PartlySettledIds(agents: seq<Agent>, outcomes: seq<ProbeOutcome>, m: nat)
    requires UniqueIds(agents) && |outcomes| == |agents| && m < |agents|
    ensures var cur := Settled(agents[..m], outcomes[..m]) + agents[m..];
            && |cur| == |agents| && UniqueIds(cur) && cur[m] == agents[m]
            && cur[m := Settle(agents[m], outcomes[m])] == Settled(agents[..m + 1], outcomes[..m + 1]) + agents[m + 1..]
  {
    var cur := Settled(agents[..m], outcomes[..m]) + agents[m..];
    assert forall k :: 0 <= k < |cur| ==> cur[k].id == agents[k].id;
    var next := Settled(agents[..m + 1], outcomes[..m + 1]) + agents[m + 1..];
    assert |next| == |agents|;
    forall k | 0 <= k < |agents| ensures cur[m := Settle(agents[m], outcomes[m])][k] == next[k] {
      if k < m {
        assert next[k] == Settle(agents[k], outcomes[k]);
      } else if k == m {
        assert next[k] == Settle(agents[m], outcomes[m]);
      } else {
        assert next[k] == agents[k];
      }
    }
  }

  lemma {:induction false} ChangesExtend(agents: seq<Agent>, outcomes: seq<ProbeOutcome>, m: nat)
    requires |outcomes| == |agents| && m < |agents|
    ensures var a := Settle(agents[m], outcomes[m]);
            Changes(agents[..m + 1], outcomes[..m + 1])
              == Changes(agents[..m], outcomes[..m]) + if a != agents[m] then [AgentStatusChanged(a)] else []
  {
    assert agents[..m + 1][..m] == agents[..m] && outcomes[..m + 1][..m] == outcomes[..m];
  }

  lemma {:induction false} PingRoundPrefix(agents: seq<Agent>, outcomes: seq<ProbeOutcome>, n: nat)
    requires UniqueIds(agents) && |outcomes| == |agents| && n <= |agents|
    ensures var r := PingRound(agents, agents[..n], outcomes[..n]);
            && r.agents == Settled(agents[..n], outcomes[..n]) + agents[n..]
            && r.events == Changes(agents[..n], outcomes[..n])
  {
    if n == 0 {
      assert agents[..0] == [] && agents[0..] == agents;
    } else {
      var m := n - 1;
      PingRoundPrefix(agents, outcomes, m);
      PingRoundExtend(agents, agents, outcomes, m);
      PartlySettledIds(agents, outcomes, m);
      ChangesExtend(agents, outcomes, m);
      ProbeStepSettles(Settled(agents[..m], outcomes[..m]) + agents[m..], m, outcomes[m]);
    }
  }

  /** A whole iteration over the current registry, with unique ids: every record is the
      settled form of itself, and one event is emitted per record that changed, in order. */
  lemma PingRoundSettlesAll(agents: seq<Agent>, outcomes: seq<ProbeOutcome>)
    requires UniqueIds(agents) && |outcomes| == |agents|
    ensures PingRound(agents, agents, outcomes) == Round(Settled(agents, outcomes), Changes(agents, outcomes))
  {
    PingRoundPrefix(agents, outcomes, |agents|);
    assert agents[..|agents|] == agents && outcomes[..|outcomes|] == outcomes;
    assert agents[|agents|..] == [];
  }

  /** A failed probe never moves an agent's last-seen time: after a whole iteration every
      record keeps its timestamp unless its probe answered 200. */
  lemma FailedProbesKeepLastSeen(agents: seq<Agent>, outcomes: seq<ProbeOutcome>, k: nat)
    requires UniqueIds(agents) && |outcomes| == |agents| && k < |agents|
    requires !(outcomes[k].Responded? && outcomes[k].statusCode == 200)
    ensures PingRound(agents, agents, outcomes).agents[k].lastSeenAt == agents[k].lastSeenAt
    ensures PingRound(agents, agents, outcomes).agents[k].status == Inactive
  {
    PingRoundSettlesAll(agents, outcomes);
  }

  /** The per-agent body of the liveness loop: probe outcome to registry call, and a
      broadcast exactly when the registry reports an updated record. */
  method ProbeAgent<Conn(==)>(store: AgentStore, manager: ConnectionManager<Conn>, agent: Agent,
                              outcome: ProbeOutcome, failing: set<Conn>) returns (event: Option<Event>)
    modifies store, manager
    ensures var u := ProbeStep(old(store.persisted), agent, outcome);
            && store.persisted == u.agents
            && event == if u.updated.Some? then Some(AgentStatusChanged(u.updated.value)) else None
    ensures store.writes == old(store.writes) + if event.Some? then 1 else 0
    ensures manager.activeConnections ==
            if event.None? then old(manager.activeConnections)
            else Survivors(old(manager.activeConnections), failing)
  {
    var updated: Option<Agent>;
    match outcome {
      case Responded(code, now) =>
        if code == 200 {
          updated := store.SetStatus(agent.id, Active, Some(now));
        } else {
          updated := store.SetStatus(agent.id, Inactive, agent.lastSeenAt);
        }
      case Raised =>
        updated := store.SetStatus(agent.id, Inactive, agent.lastSeenAt);
    }
    event := None;
    if updated.Some? {
      event := Some(AgentStatusChanged(updated.value));
      var attempted, stale := manager.Broadcast(event.value, failing);
    }
  }

  /** One pass of the liveness loop over the registry's current contents. */
  method PingIteration<Conn(==)>(store: AgentStore, manager: ConnectionManager<Conn>,
                                 outcomes: seq<ProbeOutcome>, failing: set<Conn>) returns (events: seq<Event>)
    requires |outcomes| == |store.persisted|
    modifies store, manager
    ensures var r := PingRound(old(store.persisted), old(store.persisted), outcomes);
            store.persisted == r.agents && events == r.events
    ensures store.writes == old(store.writes) + |events|
    ensures manager.activeConnections ==
            if events == [] then old(manager.activeConnections)
            else Survivors(old(manager.activeConnections), failing)
  {
    var agents := store.ListAgents();
    events := [];
    for i := 0 to |agents|
      invariant store.persisted == PingRound(agents, agents[..i], outcomes[..i]).agents
      invariant events == PingRound(agents, agents[..i], outcomes[..i]).events
      invariant store.writes == old(store.writes) + |events|
      invariant manager.activeConnections ==
                if events == [] then old(manager.activeConnections)
                else Survivors(old(manager.activeConnections), failing)
    {
      PingRoundExtend(agents, agents, outcomes, i);
      var event := ProbeAgent(store, manager, agents[i], outcomes[i], failing);
      if event.Some? {
        SurvivorsIdempotent(old(manager.activeConnections), failing);
        events := events + [event.value];
      }
    }
    assert agents[..|agents|] == agents && outcomes[..|agents|] == outcomes;
  }
}

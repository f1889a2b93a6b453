/** The agent registry (`AgentStore`): an ordered list of agent records kept in one
    durable document that every mutating call replaces as a whole. */
module Registry {
  import opened Agents

  /** `i` is the position of the first record whose id is `id`. */
  ghost predicate IsFirstMatch(agents: seq<Agent>, id: string, i: nat) {
    i < |agents| && agents[i].id == id && forall k :: 0 <= k < i ==> agents[k].id != id
  }

  /** No two records share an id. */
  ghost predicate UniqueIds(agents: seq<Agent>) {
    forall i, j :: 0 <= i < j < |agents| ==> agents[i].id != agents[j].id
  }

  /** Position of the first record with the given id, as the registry's scans find it. */
  function FirstIndex(agents: seq<Agent>, id: string): (r: Option<nat>)
    ensures r.None? <==> forall k :: 0 <= k < |agents| ==> agents[k].id != id
    ensures r.Some? ==> IsFirstMatch(agents, id, r.value)
  {
    if |agents| == 0 then None
    else if agents[0].id == id then Some(0)
    else match FirstIndex(agents[1..], id)
      case None => None
      case Some(i) => Some(i + 1)
  }

  lemma {:induction false} FirstIndexIs(agents: seq<Agent>, id: string, i: nat)
    requires IsFirstMatch(agents, id, i)
    ensures FirstIndex(agents, id) == Some(i)
  {
    if i > 0 {
      assert agents[0].id != id;
      assert IsFirstMatch(agents[1..], id, i - 1) by {
        forall k | 0 <= k < i - 1 ensures agents[1..][k].id != id {
          assert agents[1..][k] == agents[k + 1];
        }
      }
      FirstIndexIs(agents[1..], id, i - 1);
    }
  }

  /** The list `upsert_agent` writes: the first record with the same id is
      replaced, or the new record is appended when there is none. */
  function Upserted(agents: seq<Agent>, agent: Agent): (r: seq<Agent>)
    ensures agent in r
    ensures |agents| <= |r| <= |agents| + 1
  {
    match FirstIndex(agents, agent.id)
    case Some(i) => assert agents[i := agent][i] == agent; agents[i := agent]
    case None => assert (agents + [agent])[|agents|] == agent; agents + [agent]
  }

  /** A matching record: the first one is replaced, nothing else moves. */
  lemma UpsertReplacesFirstMatch(agents: seq<Agent>, agent: Agent, i: nat)
    requires IsFirstMatch(agents, agent.id, i)
    ensures |Upserted(agents, agent)| == |agents|
    ensures Upserted(agents, agent)[i] == agent
    ensures forall k :: 0 <= k < |agents| && k != i ==> Upserted(agents, agent)[k] == agents[k]
  {
    FirstIndexIs(agents, agent.id, i);
  }

  /** No matching record: the new one goes at the end, nothing else moves. */
  lemma UpsertAppendsWhenAbsent(agents: seq<Agent>, agent: Agent)
    requires forall k :: 0 <= k < |agents| ==> agents[k].id != agent.id
    ensures Upserted(agents, agent) == agents + [agent]
  {
  }

  /** Upserting two records with the same id leaves what upserting the later one alone leaves;
      with `b == a` this is idempotence. */
  lemma UpsertSameIdTwice(agents: seq<Agent>, a: Agent, b: Agent)
    requires a.id == b.id
    ensures Upserted(Upserted(agents, a), b) == Upserted(agents, b)
  {
    match FirstIndex(agents, a.id)
    case Some(i) =>
      FirstIndexIs(agents[i := a], b.id, i);
    case None =>
      FirstIndexIs(agents + [a], b.id, |agents|);
  }

  lemma UpsertIdempotent(agents: seq<Agent>, agent: Agent)
    ensures Upserted(Upserted(agents, agent), agent) == Upserted(agents, agent)
  {
    UpsertSameIdTwice(agents, agent, agent);
  }

  /** Upsert keeps ids unique and leaves exactly the new record under its id. */
  lemma UpsertKeepsIdsUnique(agents: seq<Agent>, agent: Agent)
    requires UniqueIds(agents)
    ensures UniqueIds(Upserted(agents, agent))
    ensures agent in Upserted(agents, agent)
    ensures forall k :: 0 <= k < |Upserted(agents, agent)| && Upserted(agents, agent)[k].id == agent.id
                        ==> Upserted(agents, agent)[k] == agent
  {
    match FirstIndex(agents, agent.id)
    case Some(i) =>
      assert Upserted(agents, agent)[i] == agent;
    case None =>
      assert Upserted(agents, agent)[|agents|] == agent;
  }

  /** What `set_status` returns together with the list it leaves behind. */
  datatype StatusUpdate = StatusUpdate(updated: Option<Agent>, agents: seq<Agent>)

  /** `set_status`: the first record with the id takes the new status and timestamp,
      unless it is missing or already has both. */
  function SetStatusSpec(agents: seq<Agent>, id: string, status: Status, lastSeenAt: Option<string>): (u: StatusUpdate)
    ensures |u.agents| == |agents|
    ensures u.updated.Some? ==> u.updated.value in u.agents && u.updated.value.id == id
                                && u.updated.value.status == status && u.updated.value.lastSeenAt == lastSeenAt
  {
    match FirstIndex(agents, id)
    case None => StatusUpdate(None, agents)
    case Some(i) =>
      if agents[i].status == status && agents[i].lastSeenAt == lastSeenAt then StatusUpdate(None, agents)
      else
        var a := agents[i].(status := status, lastSeenAt := lastSeenAt);
        assert agents[i := a][i] == a;
        StatusUpdate(Some(a), agents[i := a])
  }

  /** `set_status` reports nothing exactly when the id is absent or the first match already
      carries both values, and then the list is left as it was. */
  lemma SetStatusNoChange(agents: seq<Agent>, id: string, status: Status, lastSeenAt: Option<string>)
    ensures SetStatusSpec(agents, id, status, lastSeenAt).updated.None? <==>
            (forall k :: 0 <= k < |agents| ==> agents[k].id != id) ||
            (exists i: nat :: IsFirstMatch(agents, id, i) && agents[i].status == status && agents[i].lastSeenAt == lastSeenAt)
    ensures SetStatusSpec(agents, id, status, lastSeenAt).updated.None? ==>
            SetStatusSpec(agents, id, status, lastSeenAt).agents == agents
  {
    match FirstIndex(agents, id)
    case None =>
    case Some(i) =>
      forall j: nat | IsFirstMatch(agents, id, j) ensures j == i {
        assert !(j < i) && !(i < j);
      }
  }

  /** Otherwise only the status and timestamp of the first match change, and the updated
      record is returned. */
  lemma SetStatusChangesFirstMatch(agents: seq<Agent>, id: string, status: Status, lastSeenAt: Option<string>, i: nat)
    requires IsFirstMatch(agents, id, i)
    requires agents[i].status != status || agents[i].lastSeenAt != lastSeenAt
    ensures var u := SetStatusSpec(agents, id, status, lastSeenAt);
            && u.updated.Some?
            && u.updated.value == Agent(agents[i].id, agents[i].name, agents[i].endpoint, status, lastSeenAt)
            && |u.agents| == |agents|
            && u.agents[i] == u.updated.value
            && forall k :: 0 <= k < |agents| && k != i ==> u.agents[k] == agents[k]
  {
    FirstIndexIs(agents, id, i);
  }

  /** `set_status` never changes which ids are stored, nor where. */
  lemma SetStatusKeepsIds(agents: seq<Agent>, id: string, status: Status, lastSeenAt: Option<string>)
    ensures var u := SetStatusSpec(agents, id, status, lastSeenAt);
            |u.agents| == |agents| &&
            forall k :: 0 <= k < |agents| ==>
              u.agents[k].id == agents[k].id && u.agents[k].name == agents[k].name && u.agents[k].endpoint == agents[k].endpoint
  {
  }

  /** The store. `persisted` is the durable document; `writes` counts how often it was replaced. */
  class AgentStore {
    var persisted: seq<Agent>
    ghost var writes: nat

    /** Opening the store writes an empty document when none exists yet. */
    constructor (existing: Option<seq<Agent>>)
      ensures persisted == (if existing.Some? then existing.value else [])
      ensures writes == (if existing.Some? then 0 else 1)
    {
      if existing.Some? {
        persisted := existing.value;
        writes := 0;
      } else {
        persisted := [];
        writes := 1;
      }
    }

    /** A snapshot of every record, in stored order. */
    method ListAgents() returns (agents: seq<Agent>)
      ensures agents == persisted
    {
      agents := persisted;
    }

    method UpsertAgent(agent: Agent)
      modifies this
      ensures persisted == Upserted(old(persisted), agent)
      ensures writes == old(writes) + 1
    {
      var agents := persisted;
      var updated := false;
      var idx := 0;
      while idx < |agents|
        invariant 0 <= idx <= |agents|
        invariant !updated && agents == persisted
        invariant forall k :: 0 <= k < idx ==> agents[k].id != agent.id
      {
        if agents[idx].id == agent.id {
          FirstIndexIs(agents, agent.id, idx);
          agents := agents[idx := agent];
          updated := true;
          break;
        }
        idx := idx + 1;
      }
      if !updated {
        agents := agents + [agent];
      }
      persisted := agents;
      writes := writes + 1;
    }

    method SetStatus(agentId: string, status: Status, lastSeenAt: Option<string>) returns (updated: Option<Agent>)
      modifies this
      ensures var u := SetStatusSpec(old(persisted), agentId, status, lastSeenAt);
              updated == u.updated && persisted == u.agents
      ensures writes == old(writes) + (if updated.Some? then 1 else 0)
    {
      var agents := persisted;
      var idx := 0;
      while idx < |agents|
        invariant 0 <= idx <= |agents|
        invariant agents == persisted == old(persisted) && writes == old(writes)
        invariant forall k :: 0 <= k < idx ==> agents[k].id != agentId
      {
        var a := agents[idx];
        if a.id == agentId {
          FirstIndexIs(agents, agentId, idx);
          if a.status == status && a.lastSeenAt == lastSeenAt {
            return None;
          }
          a := a.(status := status, lastSeenAt := lastSeenAt);
          agents := agents[idx := a];
          persisted := agents;
          writes := writes + 1;
          return Some(a);
        }
        idx := idx + 1;
      }
      return None;
    }
  }
}

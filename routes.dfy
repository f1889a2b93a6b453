/** The two request handlers with logic of their own: the status filter of the agent
    listing and the construction of the record stored by a registration. */
module Routes {
  import opened Agents
  import opened Registry
  import opened Monitor

  /** The records carrying `status`, in stored order. */
  function WithStatus(agents: seq<Agent>, status: Status): (r: seq<Agent>)
    ensures forall k :: 0 <= k < |r| ==> r[k] in agents && r[k].status == status
    ensures forall k :: 0 <= k < |agents| && agents[k].status == status ==> agents[k] in r
    ensures |r| <= |agents|
  {
    if agents == [] then []
    else (if agents[0].status == status then [agents[0]] else []) + WithStatus(agents[1..], status)
  }

  /** The filter keeps stored order: it distributes over concatenation. */
  lemma {:induction false} WithStatusAppend(s: seq<Agent>, t: seq<Agent>, status: Status)
    ensures WithStatus(s + t, status) == WithStatus(s, status) + WithStatus(t, status)
  {
    if s == [] {
      assert s + t == t;
    } else {
      assert (s + t)[1..] == s[1..] + t;
      WithStatusAppend(s[1..], t, status);
    }
  }

  /** Every record is listed under exactly one of the two statuses. */
  lemma {:induction false} WithStatusPartition(agents: seq<Agent>)
    ensures |WithStatus(agents, Active)| + |WithStatus(agents, Inactive)| == |agents|
  {
    if agents != [] {
      WithStatusPartition(agents[1..]);
    }
  }

  /** The `status` query of the listing: a valid status selects the records carrying it,
      anything else (absent or unknown) lists everything. */
  function FilterAgents(agents: seq<Agent>, status: Option<string>): (r: seq<Agent>)
    ensures status.Some? && (status.value == ACTIVE || status.value == INACTIVE) ==>
              (forall k :: 0 <= k < |r| ==> r[k] in agents && r[k].status.Name() == status.value) &&
              (forall k :: 0 <= k < |agents| && agents[k].status.Name() == status.value ==> agents[k] in r)
    ensures !(status.Some? && (status.value == ACTIVE || status.value == INACTIVE)) ==> r == agents
    ensures status.Some? && ValidateStatus(status.value).Ok? ==> r == WithStatus(agents, ValidateStatus(status.value).value)
  {
    if status.Some? then
      match ValidateStatus(status.value)
      case Ok(s) => WithStatus(agents, s)
      case Err(_) => agents
    else agents
  }

  /** `GET /agents`. */
  method ListAgents(store: AgentStore, status: Option<string>) returns (agents: seq<Agent>)
    ensures agents == FilterAgents(store.persisted, status)
  {
    agents := store.ListAgents();
    agents := FilterAgents(agents, status);
  }

  /** `POST /agent`: the stored record is always a fresh inactive one. */
  method RegisterAgent(store: AgentStore, id: string, name: string, endpoint: string) returns (agent: Agent)
    modifies store
    ensures agent == Agent(id, name, endpoint, Inactive, None)
    ensures store.persisted == Upserted(old(store.persisted), agent)
    ensures store.writes == old(store.writes) + 1
  {
    var made := MakeAgent(id, name, endpoint, Some(INACTIVE), None);
    agent := made.value;
    store.UpsertAgent(agent);
  }

  /** Re-registering a known id replaces the first record with that id as a whole:
      name and endpoint are the new ones, and status and last-seen time are reset. */
  lemma ReRegistrationResets(agents: seq<Agent>, i: nat, name: string, endpoint: string)
    requires i < |agents| && IsFirstMatch(agents, agents[i].id, i)
    ensures var r := Upserted(agents, Agent(agents[i].id, name, endpoint, Inactive, None));
            && |r| == |agents|
            && r[i] == Agent(agents[i].id, name, endpoint, Inactive, None)
            && forall k :: 0 <= k < |agents| && k != i ==> r[k] == agents[k]
  {
    UpsertReplacesFirstMatch(agents, Agent(agents[i].id, name, endpoint, Inactive, None), i);
  }

  /** Registering twice under one id leaves one record, with the later name and endpoint. */
  lemma RegisterTwiceKeepsOne(agents: seq<Agent>, id: string, name1: string, endpoint1: string,
                              name2: string, endpoint2: string)
    requires UniqueIds(agents)
    ensures var r := Upserted(Upserted(agents, Agent(id, name1, endpoint1, Inactive, None)),
                              Agent(id, name2, endpoint2, Inactive, None));
            && UniqueIds(r)
            && Agent(id, name2, endpoint2, Inactive, None) in r
            && forall k :: 0 <= k < |r| && r[k].id == id ==> r[k] == Agent(id, name2, endpoint2, Inactive, None)
  {
    var b := Agent(id, name2, endpoint2, Inactive, None);
    UpsertSameIdTwice(agents, Agent(id, name1, endpoint1, Inactive, None), b);
    UpsertKeepsIdsUnique(agents, b);
  }

  /** A registered agent goes active on a 200, and back to inactive on the next failed
      probe with its last-seen time kept, each time with one event. */
  lemma RegisterProbeScenario(id: string, name: string, endpoint: string, now: string)
    ensures var registered := Upserted([], Agent(id, name, endpoint, Inactive, None));
            && registered == [Agent(id, name, endpoint, Inactive, None)]
            && var up := PingRound(registered, registered, [Responded(200, now)]);
            && up.agents == [Agent(id, name, endpoint, Active, Some(now))]
            && up.events == [AgentStatusChanged(Agent(id, name, endpoint, Active, Some(now)))]
            && var down := PingRound(up.agents, up.agents, [Raised]);
            && down.agents == [Agent(id, name, endpoint, Inactive, Some(now))]
            && down.events == [AgentStatusChanged(Agent(id, name, endpoint, Inactive, Some(now)))]
  {
    var registered := [Agent(id, name, endpoint, Inactive, None)];
    PingRoundSettlesAll(registered, [Responded(200, now)]);
    var active := [Agent(id, name, endpoint, Active, Some(now))];
    PingRoundSettlesAll(active, [Raised]);
    assert Settled(registered, [Responded(200, now)]) == active;
    assert Changes(registered, [Responded(200, now)]) == [AgentStatusChanged(active[0])];
  }
}

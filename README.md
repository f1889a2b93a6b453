# Agent station: registry, liveness monitor and notification hub

This project models the core of the agent station backend (`backend/app/main.py`) in Dafny.
The core has three parts:

- **Agent registry (`AgentStore`).** It keeps an ordered list of agent records. Each record has an id, a
  name, an endpoint, a status (`active` or `inactive`) and an optional last-seen time. The whole list
  lives in one durable document, and every mutating call replaces that document. The model keeps it
  in the field `AgentStore.persisted`. A ghost counter, `writes`, records each replacement.
  `upsert_agent` replaces the first record with the same id, or appends a new one. `set_status`
  rewrites the status and timestamp of the first matching record, unless both already hold the
  requested values.
- **Notification hub (`ConnectionManager`).** It keeps an ordered list of subscriber connections.
  `connect` appends a connection. `disconnect` removes the first occurrence, if there is one.
  `broadcast` sends to a snapshot of the list, collects the connections whose send failed, and then
  disconnects each of them.
- **One iteration of the liveness loop (`ping_loop`).** Each agent in a snapshot of the registry is
  probed at `endpoint` with trailing slashes stripped, plus `/ping`. A 200 response asks the registry
  to mark the agent active as of now. Any other response, or a raised error, asks for inactive and
  keeps the snapshot's last-seen time. An `agent_status_changed` event is broadcast exactly when the
  registry reports an updated record.

The route handlers with logic of their own are modelled as well: the status filter of `GET /agents`
and the record that `POST /agent` stores.

Files and modules: `agents.dfy` (`Agents`), `registry.dfy` (`Registry`), `hub.dfy` (`Hub`),
`monitor.dfy` (`Monitor`) and `routes.dfy` (`Routes`).

Inputs that stand for I/O:

- A probe result is a `ProbeOutcome`: either `Responded(code, now)` or `Raised`. `now` is the clock
  reading the loop takes after a 200.
- Whether a send to a connection fails is given by a set of failing connections.
- Whether the registry document already exists is a constructor argument.

Behaviours of the code worth knowing, which the model reproduces:

- Re-registration through `POST /agent` replaces the whole record (main.py:180, main.py:111). So it
  resets the status to inactive and clears the last-seen time; it does not keep them
  (`Routes.ReRegistrationResets`).
- `set_status` skips an update only when both the status and the last-seen time are unchanged
  (main.py:127); a matching status alone does not suppress it. Repeated 200s with fresh clock
  readings therefore emit an event every time (`Monitor.RepeatedSuccessReportsNewTimestamp`).
- Reading the registry maps only a missing file to an empty list (main.py:90-91). A corrupt or
  unreadable document is not read as empty: it raises.

## Model

| member | source | states |
|---|---|---|
| `Agents.ValidateStatus` | backend/app/main.py:28-33 | accepts exactly "active" and "inactive", returning the status with that spelling; every other string is rejected with "Invalid status" |
| `Agents.MakeAgent` | backend/app/main.py:21-33 | building an agent succeeds iff the status is omitted or valid; fields are kept, and an omitted status becomes inactive |
| `Agents.StatusNameRoundTrip` | backend/app/main.py:16-33 | the validator and the status spelling are inverse to each other |
| `Agents.FreshAgentDefaults` | backend/app/main.py:25-26 | a fresh agent is inactive with no last-seen time |
| `Registry.FirstIndex` | backend/app/main.py:109-110 | finds nothing iff no record has the id; otherwise the found position holds the id and no earlier one does |
| `Registry.Upserted` | backend/app/main.py:109-115 | the list `upsert_agent` writes holds the new record and has at most one record more than before |
| `Registry.UpsertReplacesFirstMatch` | backend/app/main.py:109-113 | when a record has the id, the first such record is replaced, the length is unchanged and all other records are untouched |
| `Registry.UpsertAppendsWhenAbsent` | backend/app/main.py:114-115 | when no record has the id, the new record is appended at the end |
| `Registry.UpsertSameIdTwice` | backend/app/main.py:104-117 | two upserts with one id leave the same list as the later upsert alone |
| `Registry.UpsertIdempotent` | backend/app/main.py:104-117 | upserting the same agent twice equals upserting it once |
| `Registry.UpsertKeepsIdsUnique` | backend/app/main.py:109-115 | unique ids stay unique, and the new record is the only one under its id |
| `Registry.SetStatusSpec` | backend/app/main.py:123-134 | `set_status` keeps the length, and a returned record is stored, has the id and carries the requested status and timestamp |
| `Registry.SetStatusNoChange` | backend/app/main.py:123-128 | no record is returned iff the id is absent or its first record already has both the status and the timestamp; then the list is unchanged |
| `Registry.SetStatusChangesFirstMatch` | backend/app/main.py:129-134 | otherwise only the status and timestamp of the first match change; the updated record is returned and the other records are untouched |
| `Registry.SetStatusKeepsIds` | backend/app/main.py:129-131 | `set_status` never changes the length, the ids, the names or the endpoints |
| `Registry.AgentStore.constructor` | backend/app/main.py:79-84 | opening writes an empty document when none exists, and otherwise keeps the existing one |
| `Registry.AgentStore.ListAgents` | backend/app/main.py:99-102 | returns the stored records in stored order |
| `Registry.AgentStore.UpsertAgent` | backend/app/main.py:104-117 | the loop with its early break leaves exactly the upserted list and writes once |
| `Registry.AgentStore.SetStatus` | backend/app/main.py:119-135 | the loop with early returns leaves the result and list of the `set_status` specification, and writes iff it returns a record |
| `Hub.RemoveFirst` | backend/app/main.py:62-65 | an absent handle leaves the list unchanged; a present one shortens it by exactly one |
| `Hub.RemoveFirstAt` | backend/app/main.py:64-65 | when the handle first occurs at position i, exactly that element is dropped |
| `Hub.RemoveFirstMultiset` | backend/app/main.py:64-65 | a present handle loses one occurrence and no other handle is lost |
| `Hub.ConnectThenDisconnect` | backend/app/main.py:57-65 | disconnecting a just-connected new handle restores the previous list |
| `Hub.StaleOf` | backend/app/main.py:68-73 | the stale list is no longer than the snapshot and holds only failing handles |
| `Hub.Survivors` | backend/app/main.py:67-75 | the survivors are no more than the snapshot and hold no failing handle |
| `Hub.StaleOfMembers` | backend/app/main.py:68-73 | the stale list holds exactly the snapshot handles whose send fails |
| `Hub.SurvivorsMembers` | backend/app/main.py:67-75 | the survivors are exactly the handles whose send succeeds |
| `Hub.SendAll` | backend/app/main.py:68-73 | the delivery loop makes one send attempt per snapshot handle, in order, and collects exactly the failing ones, in order |
| `Hub.SurvivorsAppend` | backend/app/main.py:67-75 | survivors keep their relative order |
| `Hub.SurvivorsIdempotent` | backend/app/main.py:74-75 | pruning twice removes nothing more |
| `Hub.StaleAndSurvivorsPartition` | backend/app/main.py:67-75 | each handle of the snapshot is either stale or a survivor, so the counts add up |
| `Hub.RemoveEach` | backend/app/main.py:74-75 | disconnecting the handles of a list one by one removes at most one connection per handle |
| `Hub.PruneStale` | backend/app/main.py:74-75 | disconnecting the stale handles one by one leaves exactly the survivors, in order |
| `Hub.ConnectionManager.constructor` | backend/app/main.py:53-55 | the hub starts with no connections |
| `Hub.ConnectionManager.Connect` | backend/app/main.py:57-60 | the handle is appended at the end |
| `Hub.ConnectionManager.Disconnect` | backend/app/main.py:62-65 | the first occurrence is removed; an absent handle is a no-op |
| `Hub.ConnectionManager.Broadcast` | backend/app/main.py:67-75 | one send attempt per snapshot handle in order; the list afterwards is the snapshot minus every failing handle, order kept; nothing is raised |
| `Monitor.StripTrailingSlashes` | backend/app/main.py:202 | the result is a prefix of the endpoint with no trailing '/', and only '/' characters were removed |
| `Monitor.StripTrailingSlashesUnique` | backend/app/main.py:202 | those three properties determine the stripped string |
| `Monitor.PingUrl` | backend/app/main.py:202 | the probe URL ends in "/ping" and is at most five characters longer than the endpoint |
| `Monitor.PingUrlShape` | backend/app/main.py:202 | the probe URL is the slash-stripped endpoint followed by "/ping" |
| `Monitor.PingUrlIgnoresTrailingSlash` | backend/app/main.py:202 | a trailing '/' on the endpoint does not change the probe URL |
| `Monitor.ProbeTarget` | backend/app/main.py:203-219 | the outcome is active iff the probe answered 200, with the current time; otherwise inactive with the snapshot's last-seen time |
| `Monitor.ProbeStep` | backend/app/main.py:203-219 | one probe keeps the registry's length; a reported record is stored, is the probed agent's, and is active iff the probe answered 200 |
| `Monitor.ProbeStepSettles` | backend/app/main.py:200-224 | with unique ids, a probe updates only its own record, and reports it iff the status or timestamp changes |
| `Monitor.SuccessfulProbeActivates` | backend/app/main.py:203-210 | a 200 for an inactive agent makes it active as of now and yields one event |
| `Monitor.FailedProbeDeactivates` | backend/app/main.py:211-224 | a failed probe of an active agent makes it inactive, keeps its last-seen time and yields one event |
| `Monitor.FailedProbeOfInactiveIsQuiet` | backend/app/main.py:211-224 | a failed probe of an inactive agent changes nothing and yields no event |
| `Monitor.RepeatedSuccessReportsNewTimestamp` | backend/app/main.py:203-210 | a 200 for an active agent yields an event iff the clock reading differs from the stored one |
| `Monitor.PingRound` | backend/app/main.py:199-224 | an iteration keeps the registry's length and emits at most one event per probed agent |
| `Monitor.PingRoundPrefix` | backend/app/main.py:199-224 | part-way through an iteration, the probed records are settled and the rest are untouched |
| `Monitor.PingRoundSettlesAll` | backend/app/main.py:199-224 | a whole iteration settles every record and emits one event per changed record, in snapshot order |
| `Monitor.FailedProbesKeepLastSeen` | backend/app/main.py:211-224 | after an iteration, an agent whose probe failed is inactive and keeps its last-seen time |
| `Monitor.ProbeAgent` | backend/app/main.py:201-224 | the per-agent body calls `set_status` as the outcome dictates, and broadcasts iff a record was returned |
| `Monitor.PingIteration` | backend/app/main.py:198-224 | the registry and events after the loop are those of the iteration specification; writes match events; the hub is pruned iff an event was sent |
| `Routes.WithStatus` | backend/app/main.py:174 | the result holds exactly the records with the status |
| `Routes.WithStatusAppend` | backend/app/main.py:174 | the filter keeps stored order |
| `Routes.WithStatusPartition` | backend/app/main.py:173-174 | each record is listed under exactly one of the two statuses |
| `Routes.FilterAgents` | backend/app/main.py:171-175 | "active" or "inactive" selects exactly the records with that status; an absent or other value lists everything |
| `Routes.ListAgents` | backend/app/main.py:170-175 | the listing is the filter applied to the stored records |
| `Routes.RegisterAgent` | backend/app/main.py:178-182 | stores and returns a fresh inactive record with no last-seen time |
| `Routes.ReRegistrationResets` | backend/app/main.py:178-182 | re-registering a known id resets its status and last-seen time and replaces its name and endpoint |
| `Routes.RegisterTwiceKeepsOne` | backend/app/main.py:178-182 | registering twice under one id leaves one record, with the later name and endpoint |
| `Routes.RegisterProbeScenario` | backend/app/main.py:180-219 | register, probe with 200, then probe with an error: active with the time, then inactive with the time kept, one event each |

## Left out

- File I/O in `AgentStore`: `open`, JSON encoding, the `.tmp` file with `os.replace`, and `os.makedirs`. The document is the whole-value field `persisted`. A corrupt document, which raises in the code, is not modelled.
- The asyncio locks, `create_task`, `sleep` and the unbounded `while True` of `ping_loop`. The model is sequential and covers one iteration. The outer `try`/`except` catches a failing read, and any failure inside the per-agent fallback (the `set_status` or `broadcast` of the inner `except`), which abandons the remaining agents of the snapshot. Neither can happen in a model without I/O failures.
- Network calls through `httpx`, and the 2-second timeout. A probe result is an input `ProbeOutcome`.
- `datetime.utcnow()`. The clock reading is an opaque string carried by `Responded`.
- pydantic parsing of `HttpUrl`, and `model_dump`. The endpoint is the text it serialises to, and writing a record is assumed to succeed. Under pydantic v2, `model_dump()` keeps the endpoint as a URL object, which `json.dump` at main.py:96 would seem to reject; that path is not modelled. The re-validation done by `Agent(**a)` when reading is not modelled: every write path stores only the two status constants.
- FastAPI routing, CORS, the constant discovery route, `websocket.accept()` and the websocket receive loop.
- backend/test_websocket.py, backend/debug.py and backend/pycharm_debug.py are not part of this model. They do network I/O or process start-up only.
- Registry.AgentStore.SetStatus: takes the status as the enumeration, while `set_status` takes a string. Every caller passes one of the two constants.
- Hub.ConnectionManager.Broadcast: the message payload is opaque. Which connections received it is stated as the attempted handles minus the failing ones, not as a delivery log.
- Monitor.PingIteration: the set of failing connections is fixed for the whole iteration, and no other task connects or disconnects while it runs.

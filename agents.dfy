/** Agent records and the status validator of the agent station
    (the `AgentStatus` constants and the `Agent` model). */
module Agents {

  datatype Option<+T> = None | Some(value: T)

  /** Outcome of a validating constructor: the value, or the validation message. */
  datatype Result<+T> = Ok(value: T) | Err(message: string)

  /** The wire spellings of the two statuses. */
  const ACTIVE: string := "active"
  const INACTIVE: string := "inactive"

  /** The two statuses an agent record can carry. */
  datatype Status = Active | Inactive {
    /** The string stored in the registry file and sent to subscribers. */
    function Name(): string {
      match this
      case Active => ACTIVE
      case Inactive => INACTIVE
    }
  }

  /** An agent record; `endpoint` is the probe base address, kept as the text it serialises to. */
  datatype Agent = Agent(
    id: string,
    name: string,
    endpoint: string,
    status: Status,
    lastSeenAt: Option<string>)

  /** The `status` field validator: exactly the two spellings are accepted. */
  function ValidateStatus(value: string): (r: Result<Status>)
    ensures r.Ok? <==> value == ACTIVE || value == INACTIVE
    ensures r.Ok? ==> r.value.Name() == value
    ensures r.Err? ==> r.message == "Invalid status"
  {
    if value == ACTIVE then Ok(Active)
    else if value == INACTIVE then Ok(Inactive)
    else Err("Invalid status")
  }

  /** Building an `Agent` from its fields; an omitted status defaults to inactive
      and an omitted `last_seen_at` to none. */
  function MakeAgent(id: string, name: string, endpoint: string,
                     status: Option<string>, lastSeenAt: Option<string>): (r: Result<Agent>)
    ensures r.Ok? <==> status.None? || ValidateStatus(status.value).Ok?
    ensures r.Ok? ==> r.value.id == id && r.value.name == name && r.value.endpoint == endpoint
                      && r.value.lastSeenAt == lastSeenAt
    ensures r.Ok? ==> r.value.status.Name() == (if status.None? then INACTIVE else status.value)
    ensures r.Err? ==> r.message == "Invalid status"
  {
    var given := if status.None? then INACTIVE else status.value;
    match ValidateStatus(given)
    case Ok(s) => Ok(Agent(id, name, endpoint, s, lastSeenAt))
    case Err(m) => Err(m)
  }

  /** The validator and `Name` are inverse to each other. */
  lemma StatusNameRoundTrip(s: Status, value: string)
    ensures ValidateStatus(s.Name()) == Ok(s)
    ensures ValidateStatus(value).Ok? ==> ValidateStatus(value).value.Name() == value
  {
  }

  /** A fresh agent is inactive and has never been seen. */
  lemma FreshAgentDefaults(id: string, name: string, endpoint: string)
    ensures MakeAgent(id, name, endpoint, None, None) == Ok(Agent(id, name, endpoint, Inactive, None))
  {
  }
}

/** The enumerations and rows shared by the backend and the agent.
    Instants and durations are integers (nanoseconds). Ids are UUIDs, 128-bit
    numbers the code only compares. Display-only columns (hostname, tty, command, geo,
    server name, device label) are dropped from the rows. */
module Model {
  datatype Option<+T> = None | Some(value: T)

  type Time = int
  type Id = nat
  type Ip = string
  type User = string

  datatype Context = Ssh | Sudo
  datatype Mode = Enforce | Notify

  datatype Status =
    | Pending | Approved | Denied | Timeout
    | Whitelisted | BlockedByIp | BlockedByGeo | Notified

  datatype DecidedBy = Admin | ByWhitelist | ByTimeout | Autoblock | GeoRule

  datatype AgentVerdict = Approve | Deny

  datatype Reason =
    | AdminReason | WhitelistReason | TimeoutReason
    | BlockedIpReason | BlockedGeoReason | NotifyReason

  /** What the app sends to POST /verdict. */
  datatype Choice = ChooseApprove | ChooseDeny | ChooseAlways

  datatype Row = Row(
    serverId: Id,
    context: Context,
    username: User,
    sourceIp: Option<Ip>,
    status: Status,
    decidedBy: Option<DecidedBy>,
    device: Option<Id>,
    createdAt: Time,
    expiresAt: Time,
    decidedAt: Option<Time>)

  datatype Entry = Entry(
    username: User,
    context: Context,
    serverId: Option<Id>,
    expiresAt: Option<Time>,
    createdAt: Time,
    createdFrom: Option<Id>,
    createdByDevice: Option<Id>)

  datatype Block = Block(
    ip: Ip,
    denialCount: nat,
    firstDeniedAt: Option<Time>,
    lastDeniedAt: Option<Time>,
    hitCount: nat,
    lastHitAt: Option<Time>,
    createdAt: Time,
    expiresAt: Option<Time>)
  {
    /** The block is in force: permanent, or ending strictly after now. */
    predicate Active(now: Time) {
      Unexpired(expiresAt, now)
    }
  }

  /** None never expires; an expiry instant itself is already expired. */
  predicate Unexpired(expiresAt: Option<Time>, now: Time) {
    expiresAt.None? || expiresAt.value > now
  }

  function VerdictFor(status: Status): (AgentVerdict, Reason) {
    match status
    case Approved => (Approve, AdminReason)
    case Denied => (Deny, AdminReason)
    case Whitelisted => (Approve, WhitelistReason)
    case Notified => (Approve, NotifyReason)
    case BlockedByIp => (Deny, BlockedIpReason)
    case BlockedByGeo => (Deny, BlockedGeoReason)
    case Timeout | Pending => (Deny, TimeoutReason)
  }

  /** Both approving choices make the row approved. */
  function StatusOf(choice: Choice): Status {
    if choice == ChooseDeny then Denied else Approved
  }

  function Max(a: int, b: int): int {
    if a < b then b else a
  }

  function Min(a: int, b: int): int {
    if a < b then a else b
  }
}

/** The agent: the synced whitelist copy, the classification of backend answers,
    and the decision table of the PAM hook. */
module Agent {
  import opened Model
  import opened Tables
  import opened Sorting
  import opened Store

  // ---- the synced whitelist ---------------------------------------------------------

  /** One entry of the cache file: server and id are dropped. */
  datatype Cached = Cached(username: User, context: Context, expiresAt: Option<Time>)

  function Project(e: Entry): Cached {
    Cached(e.username, e.context, e.expiresAt)
  }

  ghost predicate AllowedBy(cache: seq<Cached>, username: User, context: Context, now: Time) {
    exists i :: 0 <= i < |cache| && cache[i].username == username && cache[i].context == context
                && Unexpired(cache[i].expiresAt, now)
  }

  method Allows(cache: seq<Cached>, username: User, context: Context, now: Time) returns (allowed: bool)
    ensures allowed <==> AllowedBy(cache, username, context, now)
  {
    for i := 0 to |cache|
      invariant forall j :: 0 <= j < i ==>
                  !(cache[j].username == username && cache[j].context == context && Unexpired(cache[j].expiresAt, now))
    {
      var e := cache[i];
      if e.username != username || e.context != context {
        continue;
      }
      if e.expiresAt.Some? && now >= e.expiresAt.value {
        continue;
      }
      return true;
    }
    return false;
  }

  /** GET /whitelist with this server's token, projected entry by entry. From then
      on, and until the next sync, the copy answers as the backend's own lookup for
      this server would have on the whitelist as it stood. */
  method Sync(m: Memory, serverId: Id, now: Time) returns (cache: seq<Cached>)
    requires m.Valid()
    modifies m`whitelist
    ensures m.Valid() && m.whitelist == DeleteExpired(old(m.whitelist), now)
    ensures forall username, context, at :: now <= at ==>
              (AllowedBy(cache, username, context, at)
               <==> exists id :: id in old(m.whitelist)
                                 && Covers(old(m.whitelist)[id], username, context, serverId, at))
  {
    var items := m.ListWhitelist(Some(serverId), now);
    ItemsAreEntries(m.whitelist, items, serverId);
    cache := [];
    for i := 0 to |items|
      invariant |cache| == i
      invariant forall j :: 0 <= j < i ==> cache[j] == Project(m.whitelist[items[j]])
    {
      cache := cache + [Project(m.whitelist[items[i]])];
    }
    CopyAlwaysAnswersAsBackend(old(m.whitelist), items, cache, serverId, now);
  }

  lemma ItemsAreEntries(t: Whitelist, items: seq<Id>, serverId: Id)
    requires items == SelectWhitelist(t, Some(serverId))
    ensures forall i :: 0 <= i < |items| ==> items[i] in t
  {
    assert IsListing(items, ScopedEntries(t, Some(serverId)), EntryKeys(t));
    assert forall i :: 0 <= i < |items| ==> items[i] in items;
  }

  lemma CopyAlwaysAnswersAsBackend(t: Whitelist, items: seq<Id>, cache: seq<Cached>, serverId: Id, syncedAt: Time)
    requires items == SelectWhitelist(DeleteExpired(t, syncedAt), Some(serverId)) && |cache| == |items|
    requires forall j :: 0 <= j < |items| ==> items[j] in t && cache[j] == Project(t[items[j]])
    ensures forall username, context, at :: syncedAt <= at ==>
              (AllowedBy(cache, username, context, at)
               <==> exists id :: id in t && Covers(t[id], username, context, serverId, at))
  {
    forall username, context, at | syncedAt <= at
      ensures AllowedBy(cache, username, context, at)
              <==> exists id :: id in t && Covers(t[id], username, context, serverId, at)
    {
      CopyAnswersAsBackend(t, items, cache, serverId, syncedAt, username, context, at);
    }
  }

  lemma CopyAnswersAsBackend(t: Whitelist, items: seq<Id>, cache: seq<Cached>, serverId: Id, syncedAt: Time,
                             username: User, context: Context, at: Time)
    requires items == SelectWhitelist(DeleteExpired(t, syncedAt), Some(serverId)) && syncedAt <= at
    requires |cache| == |items|
    requires forall j :: 0 <= j < |items| ==> items[j] in t && cache[j] == Project(t[items[j]])
    ensures AllowedBy(cache, username, context, at)
            <==> exists id :: id in t && Covers(t[id], username, context, serverId, at)
  {
    var ids := ScopedEntries(DeleteExpired(t, syncedAt), Some(serverId));
    assert IsListing(items, ids, EntryKeys(DeleteExpired(t, syncedAt)));
    if AllowedBy(cache, username, context, at) {
      var i :| 0 <= i < |cache| && cache[i].username == username && cache[i].context == context
               && Unexpired(cache[i].expiresAt, at);
      assert items[i] in items && items[i] in ids;
      assert Covers(t[items[i]], username, context, serverId, at);
    }
    if id :| id in t && Covers(t[id], username, context, serverId, at) {
      assert id in ids && id in items;
      var i :| 0 <= i < |items| && items[i] == id;
      assert cache[i] == Project(t[id]);
    }
  }

  // ---- backend answers ----------------------------------------------------------------

  /** A decoded body of POST /access-request; the verdict is whatever the string was. */
  datatype Body = Malformed | Body(verdict: string, reason: Reason, id: Id)

  datatype HttpResult = NetworkError | Http(status: int, body: Body)

  datatype CallResult = Answer(verdict: AgentVerdict, reason: Reason, id: Id) | RejectedError | UnreachableError

  const APPROVE := "approve"
  const DENY := "deny"

  /** 2xx with a known verdict is an answer, 4xx a refusal, anything else no answer. */
  function Classify(r: HttpResult): CallResult {
    match r
    case NetworkError => UnreachableError
    case Http(status, body) =>
      if 200 <= status < 300 then
        (match body
         case Malformed => UnreachableError
         case Body(verdict, reason, id) =>
           if verdict == APPROVE then Answer(Approve, reason, id)
           else if verdict == DENY then Answer(Deny, reason, id)
           else UnreachableError)
      else if 400 <= status < 500 then RejectedError
      else UnreachableError
  }

  /** Which answers of the backend count as what. */
  lemma ClassifyTells(r: HttpResult)
    ensures Classify(r).RejectedError? <==> r.Http? && 400 <= r.status <= 499
    ensures Classify(r).Answer? <==>
              r.Http? && 200 <= r.status <= 299 && r.body.Body? && r.body.verdict in {"approve", "deny"}
    ensures Classify(r).Answer? ==>
              && (Classify(r).verdict == Approve <==> r.body.verdict == "approve")
              && Classify(r).reason == r.body.reason && Classify(r).id == r.body.id
  {
  }

  // ---- the decision table ---------------------------------------------------------------

  datatype Decision = Allow | Refuse

  datatype LogReason =
    | Error | BreakGlass | Unreachable | RejectedReason | NotifyLogged | CacheHit
    | FromBackend(reason: Reason)

  datatype Line = Line(decision: Decision, context: Context, user: User, reason: LogReason, request: Option<Id>)

  const EXIT_ALLOW := 0
  const EXIT_DENY := 1

  /** The backend gave no usable answer: no configuration, or unreachable. */
  predicate NoUsableAnswer(hasClient: bool, call: CallResult) {
    !hasClient || call.UnreachableError?
  }

  /** When the hook lets the login through. */
  ghost predicate LetsIn(mode: Mode, context: Context, user: User, breakGlass: set<User>, hasClient: bool,
                         call: CallResult, panics: bool, cache: seq<Cached>, now: Time)
  {
    && user != ""
    && (|| user in breakGlass
        || (!(hasClient && panics)
            && (|| mode == Notify
                || (hasClient && call.Answer? && call.verdict == Approve)
                || (NoUsableAnswer(hasClient, call) && AllowedBy(cache, user, context, now)))))
  }

  class Hook {
    var line: Line
    var logged: bool
    var log: seq<Line>

    constructor (context: Context, user: User)
      ensures line == Line(Refuse, context, user, Error, None) && !logged && log == []
    {
      line := Line(Refuse, context, user, Error, None);
      logged := false;
      log := [];
    }

    method Finish(decision: Decision, reason: LogReason, request: Option<Id>) returns (code: int)
      modifies this
      ensures line == old(line).(decision := decision, reason := reason, request := request)
      ensures log == old(log) + [line] && logged
      ensures code == if decision == Allow then EXIT_ALLOW else EXIT_DENY
    {
      line := line.(decision := decision, reason := reason, request := request);
      log := log + [line];
      logged := true;
      code := if decision == Allow then EXIT_ALLOW else EXIT_DENY;
    }

    /** Run. call is what the single backend call returns, panics tells that it
        panicked instead. One line is logged on every path, and the exit code is 0
        exactly when that line says allow, which is exactly when LetsIn holds. */
    method Run(mode: Mode, context: Context, user: User, breakGlass: set<User>, hasClient: bool, call: CallResult,
               panics: bool, cache: seq<Cached>, now: Time) returns (code: int)
      requires !logged && log == [] && line.context == context && line.user == user
      modifies this
      ensures code == EXIT_ALLOW || code == EXIT_DENY
      ensures code == EXIT_ALLOW <==> LetsIn(mode, context, user, breakGlass, hasClient, call, panics, cache, now)
      ensures |log| == 1 && (code == EXIT_ALLOW <==> log[0].decision == Allow)
      ensures log[0].user == user && log[0].context == context
      ensures log[0].reason == BreakGlass <==> user != "" && user in breakGlass
      ensures var asked := user != "" && user !in breakGlass && hasClient;
              && (log[0].reason == Error <==> user == "" || (asked && panics))
              && (log[0].reason == RejectedReason <==> asked && !panics && call.RejectedError?)
              && (log[0].reason == NotifyLogged <==> asked && !panics && call.Answer? && mode == Notify)
              && (log[0].reason.FromBackend? <==> asked && !panics && call.Answer? && mode == Enforce)
              && (log[0].reason.FromBackend? ==> log[0].reason.reason == call.reason)
              && log[0].request == if asked && !panics && call.Answer? then Some(call.id) else None
      ensures log[0].reason == CacheHit <==>
                && mode == Enforce && user != "" && user !in breakGlass
                && (!hasClient || (!panics && call.UnreachableError?)) && AllowedBy(cache, user, context, now)
      ensures code == EXIT_ALLOW <==>
                || log[0].reason in {BreakGlass, NotifyLogged, CacheHit}
                || (mode == Notify && log[0].reason in {RejectedReason, Unreachable})
                || (log[0].reason.FromBackend? && call.verdict == Approve)
    {
      if user == "" {
        code := Finish(Refuse, Error, None);
        return;
      }
      if user in breakGlass {
        code := Finish(Allow, BreakGlass, None);
        return;
      }
      if mode == Notify {
        if !hasClient {
          code := Finish(Allow, Unreachable, None);
        } else if panics {
          code := Recover();
        } else {
          match call {
            case Answer(_, _, id) => code := Finish(Allow, NotifyLogged, Some(id));
            case RejectedError => code := Finish(Allow, RejectedReason, None);
            case UnreachableError => code := Finish(Allow, Unreachable, None);
          }
        }
        return;
      }
      if hasClient {
        if panics {
          code := Recover();
          return;
        }
        match call {
          case Answer(verdict, reason, id) =>
            code := Finish(if verdict == Approve then Allow else Refuse, FromBackend(reason), Some(id));
            return;
          case RejectedError =>
            code := Finish(Refuse, RejectedReason, None);
            return;
          case UnreachableError =>
        }
      }
      var cached := Allows(cache, user, context, now);
      if cached {
        code := Finish(Allow, CacheHit, None);
      } else {
        code := Finish(Refuse, Unreachable, None);
      }
    }

    /** The deferred recover: deny, and log unless a line is out already. */
    method Recover() returns (code: int)
      modifies this
      ensures code == EXIT_DENY
      ensures old(logged) ==> log == old(log) && line == old(line)
      ensures !old(logged) ==>
                line == old(line).(decision := Refuse, reason := Error, request := None) && log == old(log) + [line]
    {
      if !logged {
        var _ := Finish(Refuse, Error, None);
      }
      code := EXIT_DENY;
    }
  }
}

/** The agent against the backend protocol: what an exit code 0 means. */
module Composition {
  import opened Model
  import opened Tables
  import opened Rules
  import opened Protocol
  import opened ProtocolSafety
  import opened ProtocolTheorems
  import opened Agent

  function BodyOf(reply: Reply): Body {
    Body(if reply.verdict == Approve then APPROVE else DENY, reply.reason, reply.id)
  }

  /** What the network may hand to the agent whose request handler p serves: a 2xx
      answer is the one the handler sent; errors can come from anywhere. */
  predicate Delivers(s: State, p: Id, r: HttpResult) {
    r.Http? && 200 <= r.status < 300 ==>
      p in s.access && s.access[p].pc.Sent? && r.body == BodyOf(s.access[p].pc.reply)
  }

  /** In enforce mode, exit 0 means a break-glass user; or a request row of this
      user and context, final in every continuation, that a whitelist entry
      approved or an admin approved before it expired; or no usable answer and an
      unexpired entry of the synced whitelist copy. A 4xx answer never lets anyone
      else in. */
  lemma EnforceExitZero(cfg: Config, past: seq<Action>, future: seq<Action>, p: Id, r: HttpResult,
                        context: Context, user: User, breakGlass: set<User>, hasClient: bool,
                        panics: bool, cache: seq<Cached>, now: Time)
    requires var s := Run(cfg, INIT, past);
             && Delivers(s, p, r)
             && (p in s.access ==>
                   s.access[p].mode == Enforce && s.access[p].username == user && s.access[p].context == context)
    requires LetsIn(Enforce, context, user, breakGlass, hasClient, Classify(r), panics, cache, now)
    ensures var t := Run(cfg, INIT, past + future).requests;
            || user in breakGlass
            || (&& Classify(r).Answer? && Classify(r).id in t
                && t[Classify(r).id].username == user && t[Classify(r).id].context == context
                && (t[Classify(r).id].status == Whitelisted || ApprovedInTime(t[Classify(r).id])))
            || (NoUsableAnswer(hasClient, Classify(r)) && AllowedBy(cache, user, context, now))
    ensures r.Http? && 400 <= r.status < 500 && hasClient ==> user in breakGlass
  {
    var call := Classify(r);
    if user !in breakGlass && call.Answer? && call.verdict == Approve {
      var s := Run(cfg, INIT, past);
      assert s.access[p].pc.reply.verdict == Approve;
      EnforceApproval(cfg, past, p);
      RunSplit(cfg, INIT, past, future);
      WriteOnce(cfg, s, future, call.id);
    }
  }

  /** The answer is a 2xx with a verdict. */
  predicate Verdicted(r: HttpResult, verdict: string) {
    r.Http? && 200 <= r.status <= 299 && r.body.Body? && r.body.verdict == verdict
  }

  /** The backend refuses the server: it is up, so nothing overrides it. */
  predicate Refuses(r: HttpResult) {
    r.Http? && 400 <= r.status <= 499
  }

  /** When the hook lets a login in, told from the HTTP exchange alone: break-glass
      users always; in notify mode everyone; in enforce mode those the backend
      approved, and, when it gave no usable answer (down, 5xx, a malformed body, or
      no configuration), those with an unexpired cached entry. A panic denies. */
  lemma LetsInExactly(mode: Mode, r: HttpResult, context: Context, user: User, breakGlass: set<User>,
                      hasClient: bool, panics: bool, cache: seq<Cached>, now: Time)
    ensures LetsIn(mode, context, user, breakGlass, hasClient, Classify(r), panics, cache, now) <==>
              && user != ""
              && (|| user in breakGlass
                  || (&& !(hasClient && panics)
                      && (|| mode == Notify
                          || (hasClient && Verdicted(r, "approve"))
                          || ((!hasClient || (!Verdicted(r, "approve") && !Verdicted(r, "deny") && !Refuses(r)))
                              && exists i :: 0 <= i < |cache| && cache[i].username == user
                                   && cache[i].context == context
                                   && (cache[i].expiresAt.None? || now < cache[i].expiresAt.value)))))
  {
    ClassifyTells(r);
  }
}

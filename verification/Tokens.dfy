/** The access-token cache of the push client under concurrent sends. The mutex
    makes accessTokenFor and forget atomic; posts and their answers interleave.
    The token endpoint returns a token it never returned before. */
module Tokens {
  import opened Model
  import opened Sets

  type Token = nat

  const REFRESH_MARGIN := 60_000_000_000

  datatype Held = Held(token: Token, expiresAt: Time)

  /** An answer of the token endpoint: the lifetime may be zero or unknown. */
  datatype Minted = Minted(token: Token, ttl: int)

  predicate Usable(cache: Option<Held>, now: Time) {
    cache.Some? && now < cache.value.expiresAt - REFRESH_MARGIN
  }

  class TokenCache {
    var held: Option<Held>

    constructor ()
      ensures held == None
    {
      held := None;
    }

    /** The cached token, or the minted one, which is cached whatever its lifetime;
        a failed mint leaves the cache as it was. */
    method AccessTokenFor(now: Time, mint: Option<Minted>) returns (token: Option<Token>)
      modifies this
      ensures old(held).Some? && now < old(held).value.expiresAt - 60_000_000_000 ==>
                token == Some(old(held).value.token) && held == old(held)
      ensures !(old(held).Some? && now < old(held).value.expiresAt - 60_000_000_000) ==>
                if mint.None? then token == None && held == old(held)
                else token == Some(mint.value.token) && held == Some(Held(mint.value.token, now + mint.value.ttl))
      ensures token == TokenFor(old(held), now, mint)
      ensures held == CacheAfter(old(held), now, mint)
    {
      if held.Some? && now < held.value.expiresAt - REFRESH_MARGIN {
        return Some(held.value.token);
      }
      if mint.None? {
        return None;
      }
      held := Some(Held(mint.value.token, now + mint.value.ttl));
      token := Some(mint.value.token);
    }

    method Forget(rejected: Token)
      modifies this
      ensures held != old(held) <==> old(held).Some? && old(held).value.token == rejected
      ensures held != old(held) ==> held == None
      ensures held == Forgotten(old(held), rejected)
    {
      if held.Some? && held.value.token == rejected {
        held := None;
      }
    }
  }

  function TokenFor(cache: Option<Held>, now: Time, mint: Option<Minted>): Option<Token> {
    if Usable(cache, now) then Some(cache.value.token)
    else if mint.Some? then Some(mint.value.token)
    else None
  }

  function CacheAfter(cache: Option<Held>, now: Time, mint: Option<Minted>): Option<Held> {
    if Usable(cache, now) || mint.None? then cache else Some(Held(mint.value.token, now + mint.value.ttl))
  }

  /** Only the exact rejected token is dropped. */
  function Forgotten(cache: Option<Held>, rejected: Token): Option<Held> {
    if cache.Some? && cache.value.token == rejected then None else cache
  }

  // ---- concurrent sends ---------------------------------------------------------------

  datatype Pc =
    | Starting
    | Posted(token: Token)                       // first post sent
    | Rejected(token: Token)                     // answered 401
    | Retrying(rejected: Token)                  // token forgotten
    | Reposted(rejected: Token, token: Token)    // second post sent
    | Done

  datatype Send = Send(pc: Pc, posts: nat)

  /** When a token was minted, and for how long. */
  datatype Birth = Birth(at: Time, ttl: int)

  /** What one accessTokenFor gave a send: the token, the clock reading, whether the
      token was minted then, and which token was cached before. */
  datatype Use = Use(send: Id, token: Token, at: Time, minted: bool, had: Option<Token>)

  /** All but cache and sends is history: every token minted so far, those dropped
      by forget, those replaced near their expiry, those FCM answered 401 to, when
      each token was minted, and what each call returned. */
  datatype System = System(cache: Option<Held>, sends: map<Id, Send>,
                           minted: set<Token>, forgotten: set<Token>, expired: set<Token>, refused: set<Token>,
                           births: map<Token, Birth>, uses: seq<Use>)

  const EMPTY := System(None, map[], {}, {}, {}, {}, map[], [])

  datatype Action =
    | Start(p: Id)
    | GetToken(p: Id, now: Time, mint: Option<Minted>)
    | Answer(p: Id, unauthorized: bool)
    | Forget(p: Id)

  predicate FreshMint(s: System, mint: Option<Minted>) {
    mint.Some? ==> mint.value.token !in s.minted
  }

  function Mint(s: System, now: Time, mint: Option<Minted>): System {
    if Usable(s.cache, now) || mint.None? then s
    else s.(cache := CacheAfter(s.cache, now, mint),
            minted := s.minted + {mint.value.token},
            expired := if s.cache.Some? then s.expired + {s.cache.value.token} else s.expired)
  }

  /** accessTokenFor as one step of send p, and its history. */
  function Take(s: System, p: Id, now: Time, mint: Option<Minted>): System
    requires TokenFor(s.cache, now, mint).Some?
  {
    var token := TokenFor(s.cache, now, mint).value;
    var had := if s.cache.Some? then Some(s.cache.value.token) else None;
    var isNew := mint.Some? && token == mint.value.token && token !in s.minted;
    Mint(s, now, mint).(
      uses := s.uses + [Use(p, token, now, isNew, had)],
      births := if isNew then s.births[token := Birth(now, mint.value.ttl)] else s.births)
  }

  function Set(s: System, p: Id, pc: Pc, posts: nat): System {
    s.(sends := s.sends[p := Send(pc, posts)])
  }

  function Step(s: System, a: Action): System {
    if a.Start? then (if a.p in s.sends then s else Set(s, a.p, Starting, 0))
    else if a.p !in s.sends then s
    else
      var posts := s.sends[a.p].posts;
      match (a, s.sends[a.p].pc)
      case (GetToken(p, now, mint), Starting) =>
        if !FreshMint(s, mint) then s
        else if TokenFor(s.cache, now, mint).None? then Set(s, p, Done, posts)
        else Set(Take(s, p, now, mint), p, Posted(TokenFor(s.cache, now, mint).value), posts + 1)
      case (Answer(p, unauthorized), Posted(token)) =>
        if unauthorized then Set(s, p, Rejected(token), posts).(refused := s.refused + {token})
        else Set(s, p, Done, posts)
      case (Forget(p), Rejected(token)) =>
        Set(s, p, Retrying(token), posts).(
          cache := Forgotten(s.cache, token),
          forgotten := if Forgotten(s.cache, token) != s.cache then s.forgotten + {token} else s.forgotten)
      case (GetToken(p, now, mint), Retrying(rejected)) =>
        if !FreshMint(s, mint) then s
        else if TokenFor(s.cache, now, mint).None? then Set(s, p, Done, posts)
        else Set(Take(s, p, now, mint), p, Reposted(rejected, TokenFor(s.cache, now, mint).value), posts + 1)
      case (Answer(p, unauthorized), Reposted(rejected, token)) =>
        Set(s, p, Done, posts).(refused := if unauthorized then s.refused + {token} else s.refused)
      case _ => s
  }

  function Run(s: System, acts: seq<Action>): System
    decreases |acts|
  {
    if acts == [] then s else Run(Step(s, acts[0]), acts[1..])
  }

  function Cached(s: System): set<Token> {
    if s.cache.Some? then {s.cache.value.token} else {}
  }

  ghost predicate SendOk(s: System, h: Send) {
    match h.pc
    case Starting => h.posts == 0
    case Posted(token) => h.posts == 1 && token in s.minted
    case Rejected(token) => h.posts == 1 && token in s.minted && token in s.refused
    case Retrying(rejected) => h.posts == 1 && rejected in s.minted && rejected in s.refused && rejected !in Cached(s)
    case Reposted(rejected, token) =>
      h.posts == 2 && rejected in s.refused && rejected in s.minted && token in s.minted && token != rejected
    case Done => h.posts <= 2
  }

  /** Every token ever minted is in exactly one place: cached, forgotten or expired. */
  ghost predicate Inv(s: System) {
    && s.minted == Cached(s) + s.forgotten + s.expired
    && Cached(s) !! s.forgotten !! s.expired
    && s.forgotten <= s.refused
    && (forall p :: p in s.sends ==> SendOk(s, s.sends[p]))
  }

  /** The tables of tokens only grow, and a token enters the cache only when minted. */
  ghost predicate Grows(s: System, s': System) {
    && s.minted <= s'.minted && s.refused <= s'.refused
    && (forall t :: t in Cached(s') ==> t in Cached(s) || t !in s.minted)
  }

  lemma SendOkStable(s: System, s': System, h: Send)
    requires SendOk(s, h) && Grows(s, s')
    ensures SendOk(s', h)
  {
  }

  lemma TokensStay(s: System, a: Action)
    requires Inv(s)
    ensures var s' := Step(s, a);
            && Grows(s, s') && s'.forgotten <= s'.refused
            && s'.minted == Cached(s') + s'.forgotten + s'.expired
            && Cached(s') !! s'.forgotten !! s'.expired
  {
    if a.p in s.sends {
      assert SendOk(s, s.sends[a.p]);
    }
  }

  lemma StepKeepsInv(s: System, a: Action)
    requires Inv(s)
    ensures Inv(Step(s, a))
  {
    var s' := Step(s, a);
    TokensStay(s, a);
    forall p | p in s.sends ensures SendOk(s', s.sends[p]) {
      SendOkStable(s, s', s.sends[p]);
    }
    if a.p in s.sends {
      MovedSendOk(s, a);
    }
  }

  lemma MovedSendOk(s: System, a: Action)
    requires Inv(s) && a.p in s.sends && Grows(s, Step(s, a)) && SendOk(Step(s, a), s.sends[a.p])
    ensures a.p in Step(s, a).sends && SendOk(Step(s, a), Step(s, a).sends[a.p])
  {
    assert SendOk(s, s.sends[a.p]);
  }

  /** Over every interleaving of sends: the retry never reuses the rejected token,
      no send posts more than twice, and each mint is paid for by one token that
      was refused and forgotten, or replaced near its expiry, or is still cached. */
  lemma {:induction false} SendsKeepInv(s: System, acts: seq<Action>)
    requires Inv(s)
    ensures Inv(Run(s, acts))
    ensures var s' := Run(s, acts);
            |s'.minted| == |s'.forgotten| + |s'.expired| + (if s'.cache.Some? then 1 else 0)
    ensures var s' := Run(s, acts);
            forall p :: p in s'.sends ==>
              s'.sends[p].posts <= 2
              && (s'.sends[p].pc.Reposted? ==> s'.sends[p].pc.token != s'.sends[p].pc.rejected)
    decreases |acts|
  {
    if acts == [] {
      assert |Cached(s) + s.forgotten + s.expired| == |Cached(s)| + |s.forgotten| + |s.expired|;
      assert forall p :: p in s.sends ==> SendOk(s, s.sends[p]);
    } else {
      StepKeepsInv(s, acts[0]);
      SendsKeepInv(Step(s, acts[0]), acts[1..]);
    }
  }

  /** The token a send has posted and waits for the answer to. */
  function InPost(pc: Pc): Option<Token> {
    match pc
    case Posted(token) => Some(token)
    case Reposted(_, token) => Some(token)
    case _ => None
  }

  /** The call handed out a token it had just minted, or the cached one, and it minted
      exactly when nothing was cached or the cached token was within a minute of
      the end of its lifetime. */
  predicate UseOk(births: map<Token, Birth>, u: Use) {
    && u.token in births && (u.had.Some? ==> u.had.value in births)
    && (u.minted ==> births[u.token].at == u.at)
    && (!u.minted ==> u.had == Some(u.token))
    && (u.minted <==> u.had.None? || u.at >= births[u.had.value].at + births[u.had.value].ttl - 60_000_000_000)
  }

  /** The cached expiry is the minting instant plus the lifetime. */
  ghost predicate BirthsOk(s: System) {
    && s.births.Keys == s.minted
    && (s.cache.Some? ==>
          && s.cache.value.token in s.births
          && s.cache.value.expiresAt == s.births[s.cache.value.token].at + s.births[s.cache.value.token].ttl)
    && (forall i :: 0 <= i < |s.uses| ==> UseOk(s.births, s.uses[i]))
  }

  /** The token in a post was given to that send. */
  predicate Given(s: System, p: Id, token: Token) {
    exists i :: 0 <= i < |s.uses| && s.uses[i].send == p && s.uses[i].token == token
  }

  ghost predicate PostsGiven(s: System) {
    forall p :: p in s.sends && InPost(s.sends[p].pc).Some? ==> Given(s, p, InPost(s.sends[p].pc).value)
  }

  lemma TakeKeepsBirths(s: System, p: Id, now: Time, mint: Option<Minted>)
    requires Inv(s) && BirthsOk(s) && FreshMint(s, mint) && TokenFor(s.cache, now, mint).Some?
    ensures BirthsOk(Take(s, p, now, mint))
    ensures Given(Take(s, p, now, mint), p, TokenFor(s.cache, now, mint).value)
  {
    var s' := Take(s, p, now, mint);
    assert s'.uses[|s.uses|].send == p;
    forall i | 0 <= i < |s.uses| ensures UseOk(s'.births, s'.uses[i]) {
      assert UseOk(s.births, s.uses[i]);
    }
  }

  lemma StepKeepsBirths(s: System, a: Action)
    requires Inv(s) && BirthsOk(s)
    ensures BirthsOk(Step(s, a)) && s.uses <= Step(s, a).uses
    ensures a.p in s.sends && a.GetToken? && InPost(Step(s, a).sends[a.p].pc).Some? && InPost(s.sends[a.p].pc).None? ==>
              Given(Step(s, a), a.p, InPost(Step(s, a).sends[a.p].pc).value)
  {
    if a.GetToken? && FreshMint(s, a.mint) && TokenFor(s.cache, a.now, a.mint).Some? {
      TakeKeepsBirths(s, a.p, a.now, a.mint);
    }
  }

  lemma StepKeepsGiven(s: System, a: Action)
    requires Inv(s) && BirthsOk(s) && PostsGiven(s)
    ensures PostsGiven(Step(s, a))
  {
    var s' := Step(s, a);
    StepKeepsBirths(s, a);
    forall p | p in s'.sends && InPost(s'.sends[p].pc).Some? ensures Given(s', p, InPost(s'.sends[p].pc).value) {
      if p in s.sends && s'.sends[p].pc == s.sends[p].pc {
        var i :| 0 <= i < |s.uses| && s.uses[i].send == p && s.uses[i].token == InPost(s.sends[p].pc).value;
        assert s'.uses[i] == s.uses[i];
      }
    }
  }

  lemma {:induction false} RunKeepsBirths(s: System, acts: seq<Action>)
    requires Inv(s) && BirthsOk(s) && PostsGiven(s)
    ensures BirthsOk(Run(s, acts)) && PostsGiven(Run(s, acts))
    decreases |acts|
  {
    if acts != [] {
      StepKeepsInv(s, acts[0]);
      StepKeepsBirths(s, acts[0]);
      StepKeepsGiven(s, acts[0]);
      RunKeepsBirths(Step(s, acts[0]), acts[1..]);
    }
  }

  /** Over every interleaving: every token in a post was given to that send by one
      call. The call had just minted it, or at its clock reading the token had more
      than a minute to live; and a call minted exactly when nothing was cached or
      the cached token had a minute or less. */
  lemma PostedTokensAreValid(acts: seq<Action>)
    ensures var s := Run(EMPTY, acts);
            forall p :: p in s.sends && InPost(s.sends[p].pc).Some? ==> Given(s, p, InPost(s.sends[p].pc).value)
    ensures var s := Run(EMPTY, acts);
            forall i :: 0 <= i < |s.uses| ==>
              var u := s.uses[i];
              && UseOk(s.births, u)
              && (u.minted || u.at < s.births[u.token].at + s.births[u.token].ttl - 60_000_000_000)
  {
    RunKeepsBirths(EMPTY, acts);
  }

  /** In every run from the start, tokens are minted for three reasons only: the
      first one, one for each token FCM refused, and one for each that neared its expiry. */
  lemma MintsBounded(acts: seq<Action>)
    ensures var s := Run(EMPTY, acts); |s.minted| <= |s.refused| + |s.expired| + 1
  {
    SendsKeepInv(EMPTY, acts);
    SubsetSize(Run(EMPTY, acts).forgotten, Run(EMPTY, acts).refused);
  }

  /** All readings lie in [lo, hi], and every lifetime outlasts it and the margin. */
  predicate LongLived(acts: seq<Action>, lo: Time, hi: Time) {
    forall i :: 0 <= i < |acts| && acts[i].GetToken? ==>
      && lo <= acts[i].now <= hi
      && (acts[i].mint.Some? ==> acts[i].mint.value.ttl > REFRESH_MARGIN + (hi - lo))
  }

  /** Over such a run no token nears its expiry. */
  lemma {:induction false} NothingExpires(s: System, acts: seq<Action>, lo: Time, hi: Time)
    requires LongLived(acts, lo, hi)
    requires s.expired == {} && (s.cache.Some? ==> hi < s.cache.value.expiresAt - REFRESH_MARGIN)
    ensures Run(s, acts).expired == {}
    decreases |acts|
  {
    if acts != [] {
      assert LongLived(acts[1..], lo, hi);
      NothingExpires(Step(s, acts[0]), acts[1..], lo, hi);
    }
  }

  /** Every 401 of the run answers a post that carried this token. */
  predicate RefusesOnly(s: System, acts: seq<Action>, token: Token)
    decreases |acts|
  {
    acts == [] ||
    (var a := acts[0];
     && (a.Answer? && a.unauthorized && a.p in s.sends && InPost(s.sends[a.p].pc).Some? ==>
           InPost(s.sends[a.p].pc) == Some(token))
     && RefusesOnly(Step(s, a), acts[1..], token))
  }

  lemma {:induction false} RefusedStays(s: System, acts: seq<Action>, token: Token)
    requires RefusesOnly(s, acts, token) && s.refused <= {token}
    ensures Run(s, acts).refused <= {token}
    decreases |acts|
  {
    if acts != [] {
      RefusedStays(Step(s, acts[0]), acts[1..], token);
    }
  }

  /** When lifetimes outlast the run and FCM answers 401 to posts of one token
      only, any number of sends refused with it cost exactly one more mint. */
  lemma OneRemintPerRefusedToken(acts: seq<Action>, lo: Time, hi: Time, token: Token, p: Id)
    requires LongLived(acts, lo, hi) && RefusesOnly(EMPTY, acts, token)
    requires var s := Run(EMPTY, acts); p in s.sends && s.sends[p].pc.Reposted?
    ensures Run(EMPTY, acts).sends[p].pc.rejected == token && |Run(EMPTY, acts).minted| == 2
  {
    var s := Run(EMPTY, acts);
    SendsKeepInv(EMPTY, acts);
    NothingExpires(EMPTY, acts, lo, hi);
    RefusedStays(EMPTY, acts, token);
    assert SendOk(s, s.sends[p]);
    MintsBounded(acts);
    SubsetSize(s.refused, {token});
    SubsetSize({token, s.sends[p].pc.token}, s.minted);
  }

  /** forget drops nothing but the token its send was refused with. */
  lemma ForgetDropsOnlyRefused(s: System, p: Id)
    requires Inv(s) && p in s.sends
    ensures var s' := Step(s, Forget(p));
            s'.cache != s.cache ==>
              s.sends[p].pc.Rejected? && Cached(s) == {s.sends[p].pc.token} && s'.cache.None?
              && s.sends[p].pc.token in s.refused
  {
    assert SendOk(s, s.sends[p]);
  }
}

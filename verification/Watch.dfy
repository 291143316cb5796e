/** The event-log watcher of the Windows agent: a cursor over a log that others
    append to. */
module Watch {
  import opened Model

  /** One EventData value: whether it is an accepted login, and whose. */
  datatype Datum = Other | Login(username: User, sourceIp: Ip, authMethod: string)

  datatype Raw = Raw(recordId: nat, eventId: nat, at: Time, data: seq<Datum>)

  datatype Event = Event(recordId: nat, at: Time, username: User, sourceIp: Ip, authMethod: string)

  const EVENT_ID := 4

  /** The first accepted login among the values of a record. */
  function FirstLogin(data: seq<Datum>): Option<Datum> {
    if data == [] then None else if data[0].Login? then Some(data[0]) else FirstLogin(data[1..])
  }

  lemma {:induction false} FirstLoginIsLogin(data: seq<Datum>)
    ensures FirstLogin(data).Some? ==> FirstLogin(data).value.Login? && FirstLogin(data).value in data
    ensures FirstLogin(data).None? <==> forall i :: 0 <= i < |data| ==> !data[i].Login?
  {
    if data != [] {
      FirstLoginIsLogin(data[1..]);
      assert data == [data[0]] + data[1..];
    }
  }

  function EventOf(r: Raw): seq<Event> {
    match FirstLogin(r.data)
    case Some(Login(u, ip, m)) => [Event(r.recordId, r.at, u, ip, m)]
    case _ => []
  }

  /** The accepted logins of a list of records, one per record at most, in order. */
  function Events(raw: seq<Raw>): seq<Event> {
    if raw == [] then [] else Events(raw[..|raw| - 1]) + EventOf(raw[|raw| - 1])
  }

  predicate HasLogin(r: Raw) {
    exists j :: 0 <= j < |r.data| && r.data[j].Login?
  }

  /** The event is the record's first accepted login, under its id and instant. */
  predicate IsReportOf(e: Event, r: Raw) {
    && e.recordId == r.recordId && e.at == r.at
    && exists j :: 0 <= j < |r.data| && r.data[j] == Login(e.username, e.sourceIp, e.authMethod)
                   && forall k :: 0 <= k < j ==> !r.data[k].Login?
  }

  /** One event for each record with a login, in the order of the records: event i
      reports record at[i]. */
  ghost predicate ReportsAt(raw: seq<Raw>, events: seq<Event>, at: seq<nat>) {
    && |at| == |events|
    && (forall i, j :: 0 <= i < j < |at| ==> at[i] < at[j])
    && (forall i :: 0 <= i < |at| ==> at[i] < |raw| && IsReportOf(events[i], raw[at[i]]))
    && (forall k :: 0 <= k < |raw| && HasLogin(raw[k]) ==> exists i :: 0 <= i < |at| && at[i] == k)
  }

  lemma EventOfReports(r: Raw)
    ensures |EventOf(r)| == if HasLogin(r) then 1 else 0
    ensures HasLogin(r) ==> IsReportOf(EventOf(r)[0], r)
  {
    if HasLogin(r) {
      var j := FirstLoginAt(r.data);
      assert FirstLogin(r.data) == Some(r.data[j]);
    } else {
      FirstLoginIsLogin(r.data);
    }
  }

  lemma {:induction false} FirstLoginAt(data: seq<Datum>) returns (j: nat)
    requires exists i :: 0 <= i < |data| && data[i].Login?
    ensures j < |data| && data[j].Login? && FirstLogin(data) == Some(data[j])
    ensures forall k :: 0 <= k < j ==> !data[k].Login?
  {
    if data[0].Login? {
      j := 0;
    } else {
      var i :| 0 <= i < |data| && data[i].Login?;
      assert data[1..][i - 1].Login?;
      j := FirstLoginAt(data[1..]);
      j := j + 1;
      assert forall k :: 1 <= k < j ==> data[k] == data[1..][k - 1];
    }
  }

  lemma {:induction false} EventsReport(raw: seq<Raw>) returns (at: seq<nat>)
    ensures ReportsAt(raw, Events(raw), at)
  {
    if raw == [] {
      at := [];
    } else {
      var n := |raw| - 1;
      at := EventsReport(raw[..n]);
      EventOfReports(raw[n]);
      if HasLogin(raw[n]) {
        OneMoreReport(raw, Events(raw[..n]), at, EventOf(raw[n])[0]);
        at := at + [n];
      } else {
        NoMoreReport(raw, Events(raw[..n]), at);
        assert Events(raw[..n]) + [] == Events(raw[..n]);
      }
    }
  }

  lemma NoMoreReport(raw: seq<Raw>, events: seq<Event>, at: seq<nat>)
    requires raw != [] && ReportsAt(raw[..|raw| - 1], events, at) && !HasLogin(raw[|raw| - 1])
    ensures ReportsAt(raw, events, at)
  {
    assert forall k :: 0 <= k < |raw| - 1 ==> raw[k] == raw[..|raw| - 1][k];
  }

  lemma OneMoreReport(raw: seq<Raw>, events: seq<Event>, at: seq<nat>, e: Event)
    requires raw != [] && ReportsAt(raw[..|raw| - 1], events, at) && IsReportOf(e, raw[|raw| - 1])
    ensures ReportsAt(raw, events + [e], at + [|raw| - 1])
  {
    var n := |raw| - 1;
    var at' := at + [n];
    assert forall k :: 0 <= k < n ==> raw[k] == raw[..n][k];
    forall k | 0 <= k < |raw| && HasLogin(raw[k]) ensures exists i :: 0 <= i < |at'| && at'[i] == k {
      if k < n {
        var i :| 0 <= i < |at| && at[i] == k;
        assert at'[i] == k;
      } else {
        assert at'[|at|] == k;
      }
    }
  }

  method ToEvents(raw: seq<Raw>) returns (events: seq<Event>)
    ensures exists at :: ReportsAt(raw, events, at)
    ensures events == Events(raw)
  {
    ghost var at := EventsReport(raw);
    events := [];
    for i := 0 to |raw|
      invariant events == Events(raw[..i])
    {
      var r := raw[i];
      assert raw[..i + 1][..i] == raw[..i];
      for j := 0 to |r.data|
        invariant events == Events(raw[..i]) && FirstLogin(r.data) == FirstLogin(r.data[j..])
      {
        var d := r.data[j];
        if !d.Login? {
          continue;
        }
        events := events + [Event(r.recordId, r.at, d.username, d.sourceIp, d.authMethod)];
        break;
      }
    }
    assert raw[..|raw|] == raw;
  }

  // ---- queries ------------------------------------------------------------------------

  /** Event ID 4 records with a record id in (low, high]. */
  function Between(log: seq<Raw>, low: nat, high: nat): seq<Raw> {
    if log == [] then [] else
      var r := log[|log| - 1];
      Between(log[..|log| - 1], low, high) + (if r.eventId == EVENT_ID && low < r.recordId <= high then [r] else [])
  }

  /** Event ID 4 records above a record id. */
  function Above(log: seq<Raw>, low: nat): seq<Raw> {
    if log == [] then [] else
      var r := log[|log| - 1];
      Above(log[..|log| - 1], low) + (if r.eventId == EVENT_ID && low < r.recordId then [r] else [])
  }

  /** Event ID 4 records of the last lookback. */
  function Recent(log: seq<Raw>, lookback: int, now: Time): seq<Raw> {
    if log == [] then [] else
      var r := log[|log| - 1];
      Recent(log[..|log| - 1], lookback, now) + (if r.eventId == EVENT_ID && now - r.at <= lookback then [r] else [])
  }

  /** The newest event ID 4 record. */
  function Newest(log: seq<Raw>): seq<Raw> {
    if log == [] then []
    else if log[|log| - 1].eventId == EVENT_ID then [log[|log| - 1]]
    else Newest(log[..|log| - 1])
  }

  /** Record ids grow along the log. */
  ghost predicate Ordered(log: seq<Raw>) {
    forall i, j :: 0 <= i < j < |log| ==> log[i].recordId < log[j].recordId
  }

  function Advance(last: nat, raw: seq<Raw>): nat {
    if raw == [] then last else Max(Advance(last, raw[..|raw| - 1]), raw[|raw| - 1].recordId)
  }

  datatype Cursor = Cursor(last: nat, primed: bool)

  /** What one call of Next asks for. */
  function Query(c: Cursor, lookback: int, log: seq<Raw>, now: Time): seq<Raw> {
    if c.primed then Above(log, c.last)
    else if lookback > 0 then Recent(log, lookback, now)
    else Newest(log)
  }

  /** The first call without a lookback only remembers where the log ends. */
  function Batch(c: Cursor, lookback: int, log: seq<Raw>, now: Time): seq<Event> {
    if !c.primed && lookback <= 0 then [] else Events(Query(c, lookback, log, now))
  }

  function NextCursor(c: Cursor, lookback: int, log: seq<Raw>, now: Time, ok: bool): Cursor {
    Cursor(if ok then Advance(c.last, Query(c, lookback, log, now)) else c.last, true)
  }

  class Source {
    const lookback: int
    var last: nat
    var primed: bool

    constructor (lookback: int)
      ensures this.lookback == lookback && last == 0 && !primed
    {
      this.lookback := lookback;
      last, primed := 0, false;
    }

    /** One poll of the log; ok tells whether the query succeeded. The source is
        primed even when its first query fails. */
    method Next(log: seq<Raw>, now: Time, ok: bool) returns (events: Option<seq<Event>>)
      modifies this
      ensures var c := Cursor(old(last), old(primed));
              && Cursor(last, primed) == NextCursor(c, lookback, log, now, ok)
              && events == if ok then Some(Batch(c, lookback, log, now)) else None
    {
      if !primed {
        primed := true;
        if !ok {
          return None;
        }
        if lookback > 0 {
          var raw := Recent(log, lookback, now);
          AdvanceTo(raw);
          var out := ToEvents(raw);
          return Some(out);
        }
        AdvanceTo(Newest(log));
        return Some([]);
      }
      if !ok {
        return None;
      }
      var raw := Above(log, last);
      AdvanceTo(raw);
      var out := ToEvents(raw);
      return Some(out);
    }

    method AdvanceTo(raw: seq<Raw>)
      modifies this`last
      ensures last == Advance(old(last), raw)
    {
      for i := 0 to |raw|
        invariant last == Advance(old(last), raw[..i])
      {
        assert raw[..i + 1][..i] == raw[..i];
        if raw[i].recordId > last {
          last := raw[i].recordId;
        }
      }
      assert raw[..|raw|] == raw;
    }
  }

  // ---- whole runs -----------------------------------------------------------------------

  datatype Op = Append(r: Raw) | Poll(now: Time, ok: bool)

  datatype System = System(log: seq<Raw>, cursor: Cursor, delivered: seq<Event>)

  /** An append that does not extend the order is not an append. */
  ghost function Apply(lookback: int, s: System, op: Op): System {
    match op
    case Append(r) => if Ordered(s.log + [r]) then s.(log := s.log + [r]) else s
    case Poll(now, ok) =>
      System(s.log, NextCursor(s.cursor, lookback, s.log, now, ok),
             if ok then s.delivered + Batch(s.cursor, lookback, s.log, now) else s.delivered)
  }

  ghost function Run(lookback: int, s: System, ops: seq<Op>): System
    decreases |ops|
  {
    if ops == [] then s else Run(lookback, Apply(lookback, s, ops[0]), ops[1..])
  }

  /** The cursor is at 0 or on a record of the log. */
  ghost predicate OnLog(s: System) {
    Ordered(s.log) && (s.cursor.last == 0 || exists i :: 0 <= i < |s.log| && s.log[i].recordId == s.cursor.last)
  }

  lemma {:induction false} EventsConcat(a: seq<Raw>, b: seq<Raw>)
    ensures Events(a + b) == Events(a) + Events(b)
    decreases |b|
  {
    if b == [] {
      assert a + b == a;
    } else {
      assert (a + b)[..|a + b| - 1] == a + b[..|b| - 1];
      EventsConcat(a, b[..|b| - 1]);
    }
  }

  /** Advancing over the records above the cursor ends on the newest of them. */
  lemma {:induction false} AdvanceAbove(log: seq<Raw>, low: nat)
    requires Ordered(log)
    ensures var last := Advance(low, Above(log, low));
            && last >= low
            && (last == low || exists i :: 0 <= i < |log| && log[i].recordId == last)
            && (forall i :: 0 <= i < |log| && log[i].eventId == EVENT_ID ==> log[i].recordId <= last)
  {
    if log != [] {
      var n := |log| - 1;
      var rest := log[..n];
      AdvanceAbove(rest, low);
      var r, last := log[n], Advance(low, Above(rest, low));
      if r.eventId == EVENT_ID && low < r.recordId {
        assert Above(log, low)[..|Above(log, low)| - 1] == Above(rest, low);
        assert Advance(low, Above(log, low)) == Max(last, r.recordId);
      } else {
        assert Above(log, low) == Above(rest, low);
      }
      if last != low {
        var i :| 0 <= i < |rest| && rest[i].recordId == last;
        assert log[i].recordId == last;
      }
      forall i | 0 <= i < n ensures log[i] == rest[i] {
      }
    }
  }

  /** Splitting the interval splits the records. */
  lemma {:induction false} BetweenSplit(log: seq<Raw>, low: nat, mid: nat, high: nat)
    requires Ordered(log) && low <= mid <= high
    ensures Between(log, low, high) == Between(log, low, mid) + Between(log, mid, high)
  {
    if log != [] {
      var n := |log| - 1;
      BetweenSplit(log[..n], low, mid, high);
      if low < log[n].recordId <= mid {
        NoneAbove(log[..n], mid, high, log[n].recordId);
        assert Between(log, mid, high) == [];
      }
    }
  }

  lemma {:induction false} NoneAbove(log: seq<Raw>, low: nat, high: nat, bound: nat)
    requires bound <= low && forall i :: 0 <= i < |log| ==> log[i].recordId < bound
    ensures Between(log, low, high) == []
  {
    if log != [] {
      NoneAbove(log[..|log| - 1], low, high, bound);
    }
  }

  lemma {:induction false} AboveIsBetween(log: seq<Raw>, low: nat, high: nat)
    requires forall i :: 0 <= i < |log| && log[i].eventId == EVENT_ID ==> log[i].recordId <= high
    ensures Above(log, low) == Between(log, low, high)
  {
    if log != [] {
      AboveIsBetween(log[..|log| - 1], low, high);
    }
  }

  lemma AboveExtends(log: seq<Raw>, from: nat, low: nat, high: nat)
    requires Ordered(log) && from <= low <= high
    requires forall i :: 0 <= i < |log| && log[i].eventId == EVENT_ID ==> log[i].recordId <= high
    ensures Events(Between(log, from, high)) == Events(Between(log, from, low)) + Events(Above(log, low))
  {
    AboveIsBetween(log, low, high);
    BetweenSplit(log, from, low, high);
    EventsConcat(Between(log, from, low), Between(log, low, high));
  }

  /** A poll leaves the cursor on the log, and a successful one at its end. */
  lemma PollKeepsOnLog(lookback: int, s: System, now: Time, ok: bool)
    requires OnLog(s) && s.cursor.primed
    ensures var s' := Apply(lookback, s, Poll(now, ok));
            && OnLog(s') && s'.log == s.log && s'.cursor.primed && s.cursor.last <= s'.cursor.last
            && (ok ==>
                  forall i :: 0 <= i < |s.log| && s.log[i].eventId == EVENT_ID ==> s.log[i].recordId <= s'.cursor.last)
  {
    AdvanceAbove(s.log, s.cursor.last);
  }

  /** What a successful poll delivers continues what was delivered before it. */
  lemma BatchContinues(log: seq<Raw>, from: nat, low: nat, prior: seq<Event>, delivered: seq<Event>)
    requires Ordered(log) && from <= low
    requires delivered == prior + Events(Between(log, from, low))
    ensures delivered + Events(Above(log, low)) == prior + Events(Between(log, from, Advance(low, Above(log, low))))
  {
    AdvanceAbove(log, low);
    AboveExtends(log, from, low, Advance(low, Above(log, low)));
    Associative(prior, Events(Between(log, from, low)), Events(Above(log, low)));
  }

  lemma Associative(a: seq<Event>, b: seq<Event>, c: seq<Event>)
    ensures (a + b) + c == a + (b + c)
  {
  }

  lemma PollDelivers(lookback: int, s: System, now: Time, from: nat, prior: seq<Event>)
    requires OnLog(s) && s.cursor.primed && from <= s.cursor.last
    requires s.delivered == prior + Events(Between(s.log, from, s.cursor.last))
    ensures var s' := Apply(lookback, s, Poll(now, true));
            s'.delivered == prior + Events(Between(s.log, from, s'.cursor.last))
  {
    BatchContinues(s.log, from, s.cursor.last, prior, s.delivered);
  }

  /** A record outside the interval changes nothing. */
  lemma BetweenAppend(log: seq<Raw>, r: Raw, low: nat, high: nat)
    requires !(low < r.recordId <= high)
    ensures Between(log + [r], low, high) == Between(log, low, high)
  {
    assert (log + [r])[..|log + [r]| - 1] == log && (log + [r])[|log + [r]| - 1] == r;
  }

  lemma AppendKeepsOnLog(s: System, r: Raw)
    requires OnLog(s) && Ordered(s.log + [r])
    ensures OnLog(s.(log := s.log + [r])) && (s.cursor.last == 0 || s.cursor.last < r.recordId)
  {
    var log' := s.log + [r];
    if s.cursor.last != 0 {
      var i :| 0 <= i < |s.log| && s.log[i].recordId == s.cursor.last;
      assert log'[i].recordId == s.cursor.last && log'[i].recordId < log'[|s.log|].recordId;
    }
  }

  lemma AppendKeeps(lookback: int, s: System, r: Raw, from: nat, prior: seq<Event>)
    requires OnLog(s) && s.delivered == prior + Events(Between(s.log, from, s.cursor.last)) && from <= s.cursor.last
    ensures var s' := Apply(lookback, s, Append(r));
            OnLog(s') && s'.delivered == prior + Events(Between(s'.log, from, s'.cursor.last))
  {
    if Ordered(s.log + [r]) {
      AppendKeepsOnLog(s, r);
      BetweenAppend(s.log, r, from, s.cursor.last);
    }
  }

  // ---- what is delivered, record by record -----------------------------------------------

  /** The event reports a wanted record of the log. */
  ghost predicate ComesFrom(e: Event, log: seq<Raw>, wanted: Raw -> bool) {
    exists k :: 0 <= k < |log| && wanted(log[k]) && IsReportOf(e, log[k])
  }

  ghost predicate Reported(r: Raw, events: seq<Event>) {
    exists i :: 0 <= i < |events| && IsReportOf(events[i], r)
  }

  ghost predicate Growing(events: seq<Event>) {
    forall i, j :: 0 <= i < j < |events| ==> events[i].recordId < events[j].recordId
  }

  /** The events report exactly the wanted records of the log that hold a login,
      each once: their record ids grow. */
  ghost predicate Reports(log: seq<Raw>, events: seq<Event>, wanted: Raw -> bool) {
    && Growing(events)
    && (forall i :: 0 <= i < |events| ==> ComesFrom(events[i], log, wanted))
    && (forall k :: 0 <= k < |log| && wanted(log[k]) && HasLogin(log[k]) ==> Reported(log[k], events))
  }

  lemma ReportsGrow(raw: seq<Raw>, events: seq<Event>, at: seq<nat>)
    requires Ordered(raw) && ReportsAt(raw, events, at)
    ensures Growing(events)
  {
    forall i, j | 0 <= i < j < |events| ensures events[i].recordId < events[j].recordId {
      assert events[i].recordId == raw[at[i]].recordId && events[j].recordId == raw[at[j]].recordId;
    }
  }

  lemma SelectedReported(log: seq<Raw>, raw: seq<Raw>, events: seq<Event>, at: seq<nat>, k: nat)
    requires ReportsAt(raw, events, at) && k < |log| && log[k] in raw && HasLogin(log[k])
    ensures Reported(log[k], events)
  {
    var n :| 0 <= n < |raw| && raw[n] == log[k];
    var i :| 0 <= i < |at| && at[i] == n;
    assert IsReportOf(events[i], log[k]);
  }

  /** Reporting a selection of an ordered log reports exactly the records selected. */
  lemma SelectionReports(log: seq<Raw>, raw: seq<Raw>, wanted: Raw -> bool)
    requires Ordered(raw) && forall r :: r in raw <==> r in log && wanted(r)
    ensures Reports(log, Events(raw), wanted)
  {
    var events := Events(raw);
    var at := EventsReport(raw);
    ReportsGrow(raw, events, at);
    forall i | 0 <= i < |events| ensures ComesFrom(events[i], log, wanted) {
      var r := raw[at[i]];
      assert IsReportOf(events[i], r) && r in raw;
      var k :| 0 <= k < |log| && log[k] == r;
      assert wanted(log[k]) && IsReportOf(events[i], log[k]);
    }
    forall k | 0 <= k < |log| && wanted(log[k]) && HasLogin(log[k]) ensures Reported(log[k], events) {
      assert log[k] in raw;
      SelectedReported(log, raw, events, at, k);
    }
  }

  /** Between selects the records of the interval, in order. */
  lemma {:induction false} BetweenSelects(log: seq<Raw>, low: nat, high: nat)
    requires Ordered(log)
    ensures Ordered(Between(log, low, high))
    ensures forall r :: r in Between(log, low, high) <==> r in log && r.eventId == 4 && low < r.recordId <= high
  {
    if log != [] {
      var n := |log| - 1;
      BetweenSelects(log[..n], low, high);
      assert log == log[..n] + [log[n]];
      var rest := Between(log[..n], low, high);
      forall i | 0 <= i < |rest| ensures rest[i].recordId < log[n].recordId {
        assert rest[i] in rest;
      }
    }
  }

  /** A record of the channel's event 4 with an id in (low, high]. */
  ghost function InInterval(low: nat, high: nat): Raw -> bool {
    (r: Raw) => r.eventId == 4 && low < r.recordId <= high
  }

  lemma IntervalReports(log: seq<Raw>, low: nat, high: nat)
    requires Ordered(log)
    ensures Reports(log, Events(Between(log, low, high)), InInterval(low, high))
  {
    BetweenSelects(log, low, high);
    SelectionReports(log, Between(log, low, high), InInterval(low, high));
  }

  /** A primed source has delivered, after prior, the logins of the interval. */
  lemma {:induction false} PollsDeliver(lookback: int, s: System, ops: seq<Op>, from: nat, prior: seq<Event>)
    requires OnLog(s) && s.cursor.primed && from <= s.cursor.last
    requires s.delivered == prior + Events(Between(s.log, from, s.cursor.last))
    ensures var s' := Run(lookback, s, ops);
            && OnLog(s') && s'.cursor.primed && s.cursor.last <= s'.cursor.last
            && s'.delivered == prior + Events(Between(s'.log, from, s'.cursor.last))
    decreases |ops|
  {
    if ops != [] {
      match ops[0] {
        case Append(r) => AppendKeeps(lookback, s, r, from, prior);
        case Poll(now, ok) =>
          PollKeepsOnLog(lookback, s, now, ok);
          if ok { PollDelivers(lookback, s, now, from, prior); }
      }
      PollsDeliver(lookback, Apply(lookback, s, ops[0]), ops[1..], from, prior);
    }
  }

  /** The last operation is a successful poll. */
  predicate EndsWithPoll(ops: seq<Op>) {
    ops != [] && ops[|ops| - 1].Poll? && ops[|ops| - 1].ok
  }

  /** No event ID 4 record lies above the cursor. */
  ghost predicate AtEnd(s: System) {
    forall i :: 0 <= i < |s.log| && s.log[i].eventId == 4 ==> s.log[i].recordId <= s.cursor.last
  }

  lemma {:induction false} LastPollReachesEnd(lookback: int, s: System, ops: seq<Op>)
    requires OnLog(s) && s.cursor.primed && EndsWithPoll(ops)
    ensures AtEnd(Run(lookback, s, ops))
    decreases |ops|
  {
    var s' := Apply(lookback, s, ops[0]);
    if ops[0].Poll? {
      PollKeepsOnLog(lookback, s, ops[0].now, ops[0].ok);
    } else if Ordered(s.log + [ops[0].r]) {
      AppendKeepsOnLog(s, ops[0].r);
    }
    if |ops| == 1 {
      assert Run(lookback, s', ops[1..]) == s';
    } else {
      LastPollReachesEnd(lookback, s', ops[1..]);
    }
  }

  /** In every run of appends and polls, some of which fail, a primed source has
      delivered, after what its first poll delivered, exactly the accepted logins
      with a record id above from and up to the cursor, each once and in log order,
      each the first of its record; failed polls lose nothing, and a successful poll
      reaches the end of the log. */
  lemma PollsDeliverExactly(lookback: int, s: System, ops: seq<Op>, from: nat, prior: seq<Event>)
    requires OnLog(s) && s.cursor.primed && from <= s.cursor.last
    requires s.delivered == prior + Events(Between(s.log, from, s.cursor.last))
    ensures var s' := Run(lookback, s, ops);
            && OnLog(s') && s'.cursor.primed && s.cursor.last <= s'.cursor.last
            && s'.delivered == prior + Events(Between(s'.log, from, s'.cursor.last))
            && |prior| <= |s'.delivered| && s'.delivered[..|prior|] == prior
            && Reports(s'.log, s'.delivered[|prior|..], InInterval(from, s'.cursor.last))
            && (EndsWithPoll(ops) ==> AtEnd(s'))
  {
    PollsDeliver(lookback, s, ops, from, prior);
    if EndsWithPoll(ops) {
      LastPollReachesEnd(lookback, s, ops);
    }
    var s' := Run(lookback, s, ops);
    IntervalReports(s'.log, from, s'.cursor.last);
    assert s'.delivered[|prior|..] == Events(Between(s'.log, from, s'.cursor.last));
  }

  lemma {:induction false} NewestIsLast(log: seq<Raw>)
    requires Ordered(log)
    ensures var last := Advance(0, Newest(log));
            && (last == 0 || exists i :: 0 <= i < |log| && log[i].recordId == last)
            && (forall i :: 0 <= i < |log| && log[i].eventId == EVENT_ID ==> log[i].recordId <= last)
  {
    if log != [] {
      var n := |log| - 1;
      if log[n].eventId == EVENT_ID {
        assert Newest(log) == [log[n]] && [log[n]][..0] == [];
        assert Advance(0, Newest(log)) == Max(Advance(0, []), log[n].recordId);
        forall i | 0 <= i < n ensures log[i].recordId <= log[n].recordId {
        }
      } else {
        NewestIsLast(log[..n]);
      }
    }
  }

  lemma {:induction false} BetweenEmpty(log: seq<Raw>, at: nat)
    ensures Between(log, at, at) == []
  {
    if log != [] {
      BetweenEmpty(log[..|log| - 1], at);
    }
  }

  lemma AfterPrimingPoll(log: seq<Raw>, now: Time, ok: bool)
    requires Ordered(log)
    ensures var from := if ok then Advance(0, Newest(log)) else 0;
            var s := Apply(0, System(log, Cursor(0, false), []), Poll(now, ok));
            && OnLog(s) && s.cursor == Cursor(from, true)
            && s.delivered == [] + Events(Between(s.log, from, from))
            && (ok ==> forall i :: 0 <= i < |log| && log[i].eventId == EVENT_ID ==> log[i].recordId <= from)
  {
    NewestIsLast(log);
    BetweenEmpty(log, if ok then Advance(0, Newest(log)) else 0);
  }

  /** A run that starts with a poll, no lookback: a successful priming query skips
      the log as it stood, a failed one skips nothing, so that the whole log is
      reported by the polls that follow. */
  lemma FromPrimingPoll(log: seq<Raw>, now: Time, ok: bool, ops: seq<Op>)
    requires Ordered(log)
    ensures var from := if ok then Advance(0, Newest(log)) else 0;
            var s := Run(0, Apply(0, System(log, Cursor(0, false), []), Poll(now, ok)), ops);
            && s.delivered == Events(Between(s.log, from, s.cursor.last))
            && Reports(s.log, s.delivered, InInterval(from, s.cursor.last))
            && (EndsWithPoll(ops) ==> AtEnd(s))
            && (ok ==> forall i :: 0 <= i < |log| && log[i].eventId == EVENT_ID ==> log[i].recordId <= from)
            && (from == 0 || exists i :: 0 <= i < |log| && log[i].recordId == from)
  {
    AfterPrimingPoll(log, now, ok);
    NewestIsLast(log);
    var from := if ok then Advance(0, Newest(log)) else 0;
    var s1 := Apply(0, System(log, Cursor(0, false), []), Poll(now, ok));
    PollsDeliverExactly(0, s1, ops, from, []);
    var s := Run(0, s1, ops);
    assert s.delivered[0..] == s.delivered;
  }

  /** Event times never go back along the log. */
  ghost predicate Timed(log: seq<Raw>) {
    forall i, j :: 0 <= i < j < |log| ==> log[i].at <= log[j].at
  }

  lemma {:induction false} AdvanceIsMaximum(low: nat, raw: seq<Raw>)
    ensures forall i :: 0 <= i < |raw| ==> raw[i].recordId <= Advance(low, raw)
    ensures Advance(low, raw) == low || exists i :: 0 <= i < |raw| && raw[i].recordId == Advance(low, raw)
  {
    if raw != [] {
      var rest := raw[..|raw| - 1];
      AdvanceIsMaximum(low, rest);
      assert forall i :: 0 <= i < |rest| ==> rest[i] == raw[i];
    }
  }

  /** Recent selects the records of the window. */
  lemma {:induction false} RecentSelects(log: seq<Raw>, lookback: int, now: Time)
    ensures Ordered(log) ==> Ordered(Recent(log, lookback, now))
    ensures forall r :: r in Recent(log, lookback, now) <==> r in log && r.eventId == EVENT_ID && now - r.at <= lookback
  {
    if log != [] {
      assert log == log[..|log| - 1] + [log[|log| - 1]];
      RecentSelects(log[..|log| - 1], lookback, now);
      var rest := Recent(log[..|log| - 1], lookback, now);
      if Ordered(log) {
        forall i | 0 <= i < |rest| ensures rest[i].recordId < log[|log| - 1].recordId {
          assert rest[i] in rest;
        }
      }
    }
  }

  /** A record of event 4 at most lookback old. */
  ghost function InWindow(lookback: int, now: Time): Raw -> bool {
    (r: Raw) => r.eventId == 4 && now - r.at <= lookback
  }

  lemma WindowBelow(e: Event, log: seq<Raw>, lookback: int, now: Time, from: nat)
    requires ComesFrom(e, log, InWindow(lookback, now))
    requires forall r :: r in log && r.eventId == 4 && now - r.at <= lookback ==> r.recordId <= from
    ensures e.recordId <= from
  {
    var k :| 0 <= k < |log| && InWindow(lookback, now)(log[k]) && IsReportOf(e, log[k]);
    assert log[k] in log;
  }

  lemma IntervalAbove(e: Event, log: seq<Raw>, low: nat, high: nat)
    requires ComesFrom(e, log, InInterval(low, high))
    ensures low < e.recordId
  {
  }

  lemma GrowingJoin(early: seq<Event>, late: seq<Event>, at: nat)
    requires Growing(early) && Growing(late)
    requires forall i :: 0 <= i < |early| ==> early[i].recordId <= at
    requires forall i :: 0 <= i < |late| ==> at < late[i].recordId
    ensures Growing(early + late)
  {
  }

  /** First the logins of the window, then those of the interval in a later log. */
  ghost predicate InTwoParts(log: seq<Raw>, lookback: int, now: Time, log': seq<Raw>, low: nat, high: nat,
                             events: seq<Event>)
  {
    exists n :: 0 <= n <= |events|
      && Reports(log, events[..n], InWindow(lookback, now))
      && Reports(log', events[n..], InInterval(low, high))
  }

  /** The logins of the window, then those above its newest record: none twice. */
  lemma WindowThenInterval(log: seq<Raw>, log': seq<Raw>, lookback: int, now: Time, from: nat, high: nat)
    requires Ordered(log) && Ordered(log') && forall r :: r in Recent(log, lookback, now) ==> r.recordId <= from
    ensures var early, late := Events(Recent(log, lookback, now)), Events(Between(log', from, high));
            && InTwoParts(log, lookback, now, log', from, high, early + late)
            && Growing(early + late)
  {
    var raw := Recent(log, lookback, now);
    var early, late := Events(raw), Events(Between(log', from, high));
    RecentSelects(log, lookback, now);
    SelectionReports(log, raw, InWindow(lookback, now));
    IntervalReports(log', from, high);
    forall i | 0 <= i < |early| ensures early[i].recordId <= from {
      WindowBelow(early[i], log, lookback, now, from);
    }
    forall i | 0 <= i < |late| ensures from < late[i].recordId {
      IntervalAbove(late[i], log', from, high);
    }
    GrowingJoin(early, late, from);
    assert (early + late)[..|early|] == early && (early + late)[|early|..] == late;
  }

  /** With event times that never go back, the window reaches the end of the log. */
  lemma WindowReachesEnd(log: seq<Raw>, lookback: int, now: Time, last: nat)
    requires Ordered(log) && Timed(log) && Recent(log, lookback, now) != []
    requires forall r :: r in Recent(log, lookback, now) ==> r.recordId <= last
    ensures forall i :: 0 <= i < |log| && log[i].eventId == EVENT_ID ==> log[i].recordId <= last
  {
    var raw := Recent(log, lookback, now);
    RecentSelects(log, lookback, now);
    assert raw[0] in raw;
    var first :| 0 <= first < |log| && log[first] == raw[0];
    forall i | 0 <= i < |log| && log[i].eventId == EVENT_ID ensures log[i].recordId <= last {
      if i >= first {
        assert log[i] in raw;
      }
    }
  }

  /** The cursor that a lookback query leaves behind. */
  lemma RecentCursor(log: seq<Raw>, lookback: int, now: Time)
    requires Ordered(log)
    ensures var raw, last := Recent(log, lookback, now), Advance(0, Recent(log, lookback, now));
            && (last == 0 || exists i :: 0 <= i < |log| && log[i].recordId == last)
            && (forall r :: r in raw ==> r.recordId <= last)
            && (raw != [] && Timed(log) ==>
                  forall i :: 0 <= i < |log| && log[i].eventId == EVENT_ID ==> log[i].recordId <= last)
  {
    var raw := Recent(log, lookback, now);
    RecentSelects(log, lookback, now);
    AdvanceIsMaximum(0, raw);
    assert forall i :: 0 <= i < |raw| ==> raw[i] in raw;
    if raw != [] && Timed(log) {
      WindowReachesEnd(log, lookback, now, Advance(0, raw));
    }
  }

  lemma AfterLookbackPoll(log: seq<Raw>, lookback: int, now: Time)
    requires Ordered(log) && lookback > 0
    ensures var raw := Recent(log, lookback, now);
            var from := Advance(0, raw);
            var s := Apply(lookback, System(log, Cursor(0, false), []), Poll(now, true));
            && OnLog(s) && s.cursor == Cursor(from, true) && s.log == log
            && s.delivered == Events(raw) + Events(Between(log, from, from))
  {
    RecentCursor(log, lookback, now);
    BetweenEmpty(log, Advance(0, Recent(log, lookback, now)));
  }

  /** A run that starts with a successful lookback query: its logins come first,
      then those above the newest of them, so none is reported twice. When event
      times never go back the later polls report appended records only, unless the
      window was empty: then they report the whole log. */
  lemma FromLookbackPoll(log: seq<Raw>, lookback: int, now: Time, ops: seq<Op>)
    requires Ordered(log) && lookback > 0
    ensures var raw := Recent(log, lookback, now);
            var from := Advance(0, raw);
            var s := Run(lookback, Apply(lookback, System(log, Cursor(0, false), []), Poll(now, true)), ops);
            && s.delivered == Events(raw) + Events(Between(s.log, from, s.cursor.last))
            && InTwoParts(log, lookback, now, s.log, from, s.cursor.last, s.delivered)
            && Growing(s.delivered)
            && (forall r :: r in raw ==> r.recordId <= from)
            && (forall r :: r in raw <==> r in log && r.eventId == EVENT_ID && now - r.at <= lookback)
            && (raw == [] ==> from == 0)
            && (raw != [] && Timed(log) ==>
                  forall i :: 0 <= i < |log| && log[i].eventId == EVENT_ID ==> log[i].recordId <= from)
  {
    var raw := Recent(log, lookback, now);
    var s := Apply(lookback, System(log, Cursor(0, false), []), Poll(now, true));
    RecentSelects(log, lookback, now);
    RecentCursor(log, lookback, now);
    AfterLookbackPoll(log, lookback, now);
    PollsDeliver(lookback, s, ops, Advance(0, raw), Events(raw));
    var s' := Run(lookback, s, ops);
    WindowThenInterval(log, s'.log, lookback, now, Advance(0, raw), s'.cursor.last);
  }
}

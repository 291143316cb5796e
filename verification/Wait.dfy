/** The wait of POST /access-request. Another handler's verdict lands at some
    instant, or never. A sleep may last longer than asked, a store call takes
    time and may fail, and the agent may hang up. */
module Wait {
  import opened Model

  datatype Landing = Landing(at: Time, status: Status)

  /** The status a read at now sees. */
  function StatusAt(landing: Option<Landing>, now: Time): Status {
    if landing.Some? && landing.value.at <= now then landing.value.status else Pending
  }

  /** How one round of the loop goes: how much longer the sleep lasts, how long the
      store call takes, whether the agent hangs up during the sleep, whether the
      store call fails. */
  datatype Round = Round(oversleep: nat, latency: nat, hangsUp: bool, fails: bool)

  datatype Outcome = Answered(status: Status) | HungUp | Error500

  ghost predicate Smooth(rounds: nat -> Round) {
    forall i :: !rounds(i).hangsUp && !rounds(i).fails
  }

  ghost predicate LateBy(rounds: nat -> Round, oversleep: nat, latency: nat) {
    forall i :: rounds(i).oversleep <= oversleep && rounds(i).latency <= latency
  }

  /** The length of a number of intervals. */
  function Span(n: nat, each: int): int {
    if n == 0 then 0 else Span(n - 1, each) + each
  }

  lemma {:induction false} SpanIsProduct(n: nat, each: int)
    ensures Span(n, each) == n * each
  {
    if n > 0 {
      SpanIsProduct(n - 1, each);
    }
  }

  /** Poll until the row is decided or the deadline passes; then mark the row
      timed out, which doubles as the last read.

      end is the instant of the read or update the outcome rests on, or the start of
      the sleep in which the agent hung up. The answer is
      the verdict if it landed by then, else timeout, and the row is timed out
      exactly when nothing landed by the end of a wait that reached the deadline.
      With sleeps and store calls late by at most oversleep and latency, the wait
      ends by the deadline, and answers a verdict landing at t by
      min(t + poll, deadline), plus at most one oversleep and one latency.
      Polls before the last step are at most one per poll interval inside the wait. */
  method WaitAccessVerdict(poll: int, deadline: Time, start: Time, landing: Option<Landing>, rounds: nat -> Round,
                           ghost oversleep: nat, ghost latency: nat)
    returns (outcome: Outcome, marked: bool, end: Time, polls: nat)
    requires poll > 0
    requires landing.Some? ==> landing.value.status != Pending
    requires LateBy(rounds, oversleep, latency)
    ensures Smooth(rounds) ==> outcome.Answered?
    ensures outcome.Answered? ==>
              && (forall i :: 0 <= i < polls ==> !rounds(i).hangsUp && !rounds(i).fails)
              && (end >= deadline ==>
                    !rounds(polls).hangsUp && !rounds(polls).fails && (!marked ==> !rounds(polls + 1).fails))
    ensures outcome.HungUp? ==> rounds(polls).hangsUp
    ensures outcome.Error500? ==>
              if end < deadline then polls > 0 && rounds(polls - 1).fails
              else rounds(polls).fails || rounds(polls + 1).fails
    ensures outcome.Answered? ==>
              outcome.status == if landing.Some? && landing.value.at <= end then landing.value.status else Timeout
    ensures marked <==> outcome.Answered? && (landing.None? || end < landing.value.at)
    ensures marked ==> end >= deadline
    ensures start <= end <= Max(start, deadline) + oversleep + latency
    ensures landing.Some? && landing.value.at <= deadline && start <= deadline ==>
              end <= Min(Max(landing.value.at, start) + poll, deadline) + oversleep + latency
    ensures polls > 0 ==> Span(polls, poll) < deadline - start
    ensures start + Span(polls, poll) <= end
    ensures end < deadline ==> end <= start + Span(polls, poll + oversleep + latency)
  {
    var now := start;
    polls, marked := 0, false;
    ghost var seen := start;    // the last read: nothing had landed by then
    while true
      invariant start + Span(polls, poll) <= now
      invariant polls == 0 ==> now == start
      invariant forall i :: 0 <= i < polls ==> !rounds(i).hangsUp && !rounds(i).fails
      invariant polls > 0 ==> start + Span(polls, poll) <= seen < deadline && now <= seen + latency
      invariant polls > 0 ==> StatusAt(landing, seen) == Pending
      invariant now <= start + Span(polls, poll + oversleep + latency)
      decreases deadline - now
    {
      var round := rounds(polls);
      var d := poll;
      var rem := deadline - now;
      if rem < d {
        d := rem;
      }
      if round.hangsUp {    // the sleep is cut short
        return HungUp, false, now, polls;
      }
      now := now + Max(d, 0) + round.oversleep;
      if now >= deadline {
        break;
      }
      polls := polls + 1;
      if round.fails {
        return Error500, false, now, polls;
      }
      if StatusAt(landing, now) != Pending {
        return Answered(StatusAt(landing, now)), false, now, polls;
      }
      seen := now;
      now := now + round.latency;
    }
    end := now;
    if rounds(polls).fails {
      return Error500, false, end, polls;
    }
    marked := StatusAt(landing, now) == Pending;
    if !marked {
      if rounds(polls + 1).fails {
        return Error500, false, end, polls;
      }
      return Answered(StatusAt(landing, now)), false, end, polls;
    }
    outcome := Answered(Timeout);
  }
}

/** The bounded polling both browser waits of the exporter follow: evaluate a check in
    the page, and while it is false and the elapsed time is under the budget, sleep a
    fixed interval and evaluate again. The page's answers and the time each evaluation
    takes are functions of the clock. */
module Polling {

  /** The pause after every poll that came back false. */
  const SleepMs := 1000

  /** How a polling wait ended: whether a poll saw the goal, the clock time at which
      each poll began, in order, and the clock when the wait ended. */
  datatype PollOutcome = PollOutcome(found: bool, polls: seq<nat>, clock: nat)

  function Last(s: seq<nat>): nat
    requires s != []
  {
    s[|s| - 1]
  }

  /** The outcome of earlier polls `before` followed by a wait that ended in `rest`. */
  function After(before: seq<nat>, rest: PollOutcome): PollOutcome {
    PollOutcome(rest.found, before + rest.polls, rest.clock)
  }

  /** The polling wait begun at `start` with a budget of `budget` milliseconds, seen from
      the clock reading `now`: the loop guard reads the clock; a poll begun at `t` sees
      `goal(t)` and takes `lag(t)`; a false poll is followed by the sleep. */
  function Poll(goal: nat -> bool, lag: nat -> nat, start: nat, budget: nat, now: nat): PollOutcome
    requires start <= now
    decreases start + budget - now
  {
    if now - start >= budget then PollOutcome(false, [], now)
    else if goal(now) then PollOutcome(true, [now], now + lag(now))
    else After([now], Poll(goal, lag, start, budget, now + lag(now) + SleepMs))
  }

  /** A polling wait stops at the first poll that sees the goal, every poll begins before
      the budget is spent, and a wait that did not see the goal ends only once the elapsed
      time has reached the budget. */
  lemma {:induction false} PollFacts(goal: nat -> bool, lag: nat -> nat, start: nat, budget: nat, now: nat)
    requires start <= now
    ensures var r := Poll(goal, lag, start, budget, now);
      && now <= r.clock
      && (forall i | 0 <= i < |r.polls| :: now <= r.polls[i] && r.polls[i] - start < budget)
      && (forall i | 0 <= i < |r.polls| - 1 :: !goal(r.polls[i]))
      && (!r.found ==> forall i | 0 <= i < |r.polls| :: !goal(r.polls[i]))
      && (r.found <==> r.polls != [] && goal(Last(r.polls)))
      && (r.found ==> r.clock == Last(r.polls) + lag(Last(r.polls)))
      && (!r.found ==> r.clock - start >= budget)
      && (!r.found && r.polls != [] ==> r.clock == Last(r.polls) + lag(Last(r.polls)) + SleepMs)
      && (r.polls == [] <==> now - start >= budget)
      && (r.polls != [] ==> r.polls[0] == now)
    decreases start + budget - now
  {
    if now - start < budget && !goal(now) {
      var next := now + lag(now) + SleepMs;
      PollFacts(goal, lag, start, budget, next);
      var rest := Poll(goal, lag, start, budget, next);
      var polls := Poll(goal, lag, start, budget, now).polls;
      assert polls == [now] + rest.polls;
      assert forall i | 1 <= i < |polls| :: polls[i] == rest.polls[i - 1];
      if rest.polls != [] {
        assert Last(polls) == Last(rest.polls);
      }
    }
  }

  /** One iteration of a polling loop, seen from the polls made before it: a poll begun
      within the budget either sees the goal and ends the wait, or is recorded and
      followed, after its evaluation and the sleep, by the rest of the wait. */
  lemma PollStep(goal: nat -> bool, lag: nat -> nat, start: nat, budget: nat, now: nat, before: seq<nat>)
    requires start <= now && now - start < budget
    ensures After(before, Poll(goal, lag, start, budget, now)) ==
      if goal(now) then PollOutcome(true, before + [now], now + lag(now))
      else After(before + [now], Poll(goal, lag, start, budget, now + lag(now) + SleepMs))
  {
    if !goal(now) {
      var rest := Poll(goal, lag, start, budget, now + lag(now) + SleepMs);
      assert before + ([now] + rest.polls) == before + [now] + rest.polls;
    }
  }

  /** A polling loop whose budget is spent stops without polling again. */
  lemma PollExhausted(goal: nat -> bool, lag: nat -> nat, start: nat, budget: nat, now: nat, before: seq<nat>)
    requires start <= now && now - start >= budget
    ensures After(before, Poll(goal, lag, start, budget, now)) == PollOutcome(false, before, now)
  {
    assert before + [] == before;
  }

  /** Each poll after the first begins when the one before it has been evaluated and
      the sleep has passed. */
  ghost predicate Spaced(polls: seq<nat>, lag: nat -> nat)
    decreases |polls|
  {
    |polls| <= 1 || (polls[1] == polls[0] + lag(polls[0]) + SleepMs && Spaced(polls[1..], lag))
  }

  /** Consecutive polls are spaced by the first one's evaluation time plus the sleep. */
  lemma {:induction false} PollSpacing(goal: nat -> bool, lag: nat -> nat, start: nat, budget: nat, now: nat)
    requires start <= now
    ensures Spaced(Poll(goal, lag, start, budget, now).polls, lag)
    decreases start + budget - now
  {
    if now - start < budget && !goal(now) {
      var next := now + lag(now) + SleepMs;
      PollSpacing(goal, lag, start, budget, next);
      var rest := Poll(goal, lag, start, budget, next);
      var polls := Poll(goal, lag, start, budget, now).polls;
      assert polls == [now] + rest.polls;
      assert polls[1..] == rest.polls;
    }
  }

  /** A wait makes at most one poll per sleep interval of its budget: 30 polls for a
      30000 ms budget, 90 for a 90000 ms one. */
  lemma PollCountBound(goal: nat -> bool, lag: nat -> nat, start: nat, budget: nat)
    ensures |Poll(goal, lag, start, budget, start).polls| * SleepMs < budget + SleepMs
  {
    var r := Poll(goal, lag, start, budget, start);
    PollFacts(goal, lag, start, budget, start);
    PollSpacing(goal, lag, start, budget, start);
    if r.polls != [] {
      PollsSpaced(r.polls, lag);
    }
  }

  /** Spaced polls: the last is at least one sleep interval per poll after the first. */
  lemma {:induction false} PollsSpaced(polls: seq<nat>, lag: nat -> nat)
    requires polls != [] && Spaced(polls, lag)
    ensures Last(polls) >= polls[0] + (|polls| - 1) * SleepMs
    decreases |polls|
  {
    if |polls| > 1 {
      PollsSpaced(polls[1..], lag);
      assert Last(polls[1..]) == Last(polls);
    }
  }
}

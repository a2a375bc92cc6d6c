/**
 * The coordinator's two timestamps and what they decide: whether a failed
 * cycle is tolerated (cached data is served and the response time refreshed)
 * or raised, and whether the integration reports itself available.
 * Times are whole seconds on one clock; `now` is a parameter.
 */
module Availability {
  import opened Wrappers
  import opened Constants

  /** A failure later than this after the last success is raised: 10 minutes. */
  const FailureGrace: int := 10 * 60

  /** `_last_successful_update` and `_last_response_time`. */
  datatype Clock = Clock(lastSuccessfulUpdate: Option<int>, lastResponseTime: Option<int>)

  /** Both timestamps start unset. */
  const Start: Clock := Clock(None, None)

  /** A success always sets both timestamps, so a success implies a response. */
  predicate ClockValid(c: Clock) {
    c.lastSuccessfulUpdate.Some? ==> c.lastResponseTime.Some?
  }

  /**
   * `is_available`: there has been a response, and less than UNAVAILABLE_TIME
   * has passed since it.
   */
  function IsAvailable(c: Clock, now: int): (r: bool)
    ensures r ==> c.lastResponseTime.Some? && c.lastResponseTime.value > now - UnavailableTime
    ensures c.lastResponseTime.Some? && now - UnavailableTime < c.lastResponseTime.value ==> r
  {
    match c.lastResponseTime
    case None => false
    case Some(t) => now - t < UnavailableTime
  }

  /** A failed cycle is raised when there was never a success, or the last one is more than 10 minutes old. */
  predicate FailureEscalates(c: Clock, now: int) {
    c.lastSuccessfulUpdate.None? || now - c.lastSuccessfulUpdate.value > FailureGrace
  }

  /** A successful cycle stamps both times with `now`. */
  function AfterSuccess(c: Clock, now: int): (d: Clock)
    ensures ClockValid(d)
    ensures d.lastSuccessfulUpdate == d.lastResponseTime == Some(now)
  {
    Clock(Some(now), Some(now))
  }

  /** A failed cycle: a tolerated one refreshes the response time only; a raised one changes nothing. */
  function AfterFailure(c: Clock, now: int): (d: Clock)
    ensures d.lastSuccessfulUpdate == c.lastSuccessfulUpdate
    ensures FailureEscalates(c, now) ==> d == c
    ensures !FailureEscalates(c, now) ==> d.lastResponseTime == Some(now)
    ensures ClockValid(c) ==> ClockValid(d)
  {
    if FailureEscalates(c, now) then c else c.(lastResponseTime := Some(now))
  }

  /** Before any response the integration is unavailable, whatever the time. */
  lemma NeverAvailableBeforeFirstResponse(c: Clock, now: int)
    requires c.lastResponseTime.None?
    ensures !IsAvailable(c, now)
  {
  }

  /** A first failure is always raised: with no success yet there is nothing cached to serve. */
  lemma FirstFailureRaised(now: int)
    ensures FailureEscalates(Start, now)
    ensures AfterFailure(Start, now) == Start
    ensures !IsAvailable(AfterFailure(Start, now), now)
  {
  }

  /** After a success at `s` the integration is available exactly until `s + UNAVAILABLE_TIME` (for times from `s` on). */
  lemma AvailableAfterSuccess(c: Clock, s: int, now: int)
    requires s <= now
    ensures IsAvailable(AfterSuccess(c, s), now) <==> now < s + UnavailableTime
  {
  }

  /** A tolerated failure keeps the integration available at the moment it happens. */
  lemma ToleratedFailureKeepsAvailable(c: Clock, now: int)
    requires !FailureEscalates(c, now)
    ensures IsAvailable(AfterFailure(c, now), now)
  {
  }

  /** Failures inside the grace window are exactly the ones within 10 minutes of the last success. */
  lemma ToleratedIff(c: Clock, now: int)
    requires c.lastSuccessfulUpdate.Some?
    ensures !FailureEscalates(c, now) <==> now <= c.lastSuccessfulUpdate.value + FailureGrace
  {
  }

  /** A run of failed cycles at the given times, in order. */
  function AfterFailures(c: Clock, times: seq<int>): (d: Clock)
    ensures d.lastSuccessfulUpdate == c.lastSuccessfulUpdate
    ensures ClockValid(c) ==> ClockValid(d)
  {
    if times == [] then c
    else AfterFailure(AfterFailures(c, times[..|times| - 1]), times[|times| - 1])
  }

  /** The last response is no later than the grace window after the last success. */
  predicate ResponseWithinGrace(c: Clock) {
    c.lastSuccessfulUpdate.Some? && c.lastResponseTime.Some? &&
    c.lastResponseTime.value <= c.lastSuccessfulUpdate.value + FailureGrace
  }

  /** Failed cycles only move the response time inside the grace window of the unchanged last success. */
  lemma {:induction false} FailuresStayWithinGrace(c: Clock, times: seq<int>)
    requires ResponseWithinGrace(c)
    ensures ResponseWithinGrace(AfterFailures(c, times))
  {
    if times != [] {
      var prev := AfterFailures(c, times[..|times| - 1]);
      FailuresStayWithinGrace(c, times[..|times| - 1]);
      var now := times[|times| - 1];
      if !FailureEscalates(prev, now) {
        assert now <= prev.lastSuccessfulUpdate.value + FailureGrace;
      }
    }
  }

  /**
   * The longest outage that is still reported as available: after a success at
   * `s` followed only by failed cycles, whenever they happen, the integration is
   * unavailable from `s + 10 min + UNAVAILABLE_TIME` on.
   */
  lemma {:induction false} OutageBound(c: Clock, s: int, times: seq<int>, now: int)
    requires now >= s + FailureGrace + UnavailableTime
    ensures !IsAvailable(AfterFailures(AfterSuccess(c, s), times), now)
  {
    FailuresStayWithinGrace(AfterSuccess(c, s), times);
  }

  /**
   * The bound is reached: a failed cycle exactly 10 minutes after a success at
   * `s` (the twentieth SCAN_INTERVAL) is still tolerated, and keeps the
   * integration available until just before `s + 10 min + UNAVAILABLE_TIME`.
   */
  lemma OutageBoundTight(c: Clock, s: int, now: int)
    requires s + FailureGrace <= now < s + FailureGrace + UnavailableTime
    ensures var d := AfterFailure(AfterSuccess(c, s), s + FailureGrace);
      !FailureEscalates(AfterSuccess(c, s), s + FailureGrace) && IsAvailable(d, now)
  {
  }
}

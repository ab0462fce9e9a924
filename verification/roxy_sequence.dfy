/**
 The time mapper behind `roxy.sequence.getClampedTime`
 (core/sequences/roxy_sequence.c): a sequence's elapsed time and duration, and
 the loop type the Lua caller gives, become the time at which to sample the
 sequence and the direction in which it is playing.
 */
module RoxySequence {
  import opened RoxyMath
  import opened Wrappers

  // A Lua string argument is an `Option<string>`: `None` is the NULL that
  // `getArgString` gives for nil.

  /** The two values pushed back to Lua: the mapped time and the direction flag. */
  datatype ClampedTime = ClampedTime(time: real, isForward: bool)

  /** The two loop types the C code recognises with `strcmp`; anything else clamps. */
  predicate IsLoop(loopType: Option<string>) {
    loopType == Some("loop")
  }

  predicate IsPingPong(loopType: Option<string>) {
    loopType == Some("ping-pong")
  }

  /**
   roxy_sequence_getClampedTime_l without the Lua stack. The wrapping branches
   divide by the duration (`fmodf`), and the C code has no guard against a zero
   duration, so a caller choosing them must give a positive one.
   */
  function GetClampedTime(time: real, duration: real, loopType: Option<string>): (r: ClampedTime)
    requires IsLoop(loopType) || IsPingPong(loopType) ==> duration > 0.0
    ensures !r.isForward ==> IsPingPong(loopType)
    ensures time >= 0.0 && duration > 0.0 ==> 0.0 <= r.time <= duration
    ensures time >= 0.0 && IsLoop(loopType) ==> r.time < duration
    ensures !IsLoop(loopType) && !IsPingPong(loopType) ==> Min(0.0, duration) <= r.time <= Max(0.0, duration)
  {
    if loopType == None then
      ClampedTime(Clamp(time, 0.0, duration), true)
    else if loopType.value == "loop" then
      ClampedTime(Fmod(time, duration), true)
    else if loopType.value == "ping-pong" then
      var doubleDuration := duration * 2.0;
      var wrapped := Fmod(time, doubleDuration);
      if wrapped > duration then
        ClampedTime(doubleDuration - wrapped, false)
      else
        ClampedTime(wrapped, true)
    else
      ClampedTime(Clamp(time, 0.0, duration), true)
  }

  /** Without a recognised loop type the time is clamped into the sequence, playing forward. */
  lemma DefaultModeClamps(time: real, duration: real, loopType: Option<string>)
    requires !IsLoop(loopType) && !IsPingPong(loopType)
    ensures GetClampedTime(time, duration, loopType) == ClampedTime(Clamp(time, 0.0, duration), true)
    ensures 0.0 <= time <= duration ==> GetClampedTime(time, duration, loopType).time == time
  {
  }

  /** A loop plays forward and wraps at the duration: its time differs from the raw time by whole periods. */
  lemma LoopModeWraps(time: real, duration: real)
    requires duration > 0.0
    ensures GetClampedTime(time, duration, Some("loop")).isForward
    ensures IsIntegral((time - GetClampedTime(time, duration, Some("loop")).time) / duration)
  {
  }

  /** A loop is periodic in its duration. */
  lemma LoopModePeriodic(time: real, duration: real)
    requires time >= 0.0 && duration > 0.0
    ensures GetClampedTime(time + duration, duration, Some("loop"))
         == GetClampedTime(time, duration, Some("loop"))
  {
    FmodShift(time, duration);
  }

  /** A ping-pong sequence repeats every two durations. */
  lemma PingPongPeriodic(time: real, duration: real)
    requires time >= 0.0 && duration > 0.0
    ensures GetClampedTime(time + 2.0 * duration, duration, Some("ping-pong"))
         == GetClampedTime(time, duration, Some("ping-pong"))
  {
    FmodShift(time, duration * 2.0);
  }

  /**
   Ping-pong mirrors about the end of the sequence: `x` after the end gives the
   same time as `x` before it, played in the other direction.
   */
  lemma PingPongSymmetric(x: real, duration: real)
    requires 0.0 < x < duration
    ensures GetClampedTime(duration + x, duration, Some("ping-pong")) == ClampedTime(duration - x, false)
    ensures GetClampedTime(duration - x, duration, Some("ping-pong")) == ClampedTime(duration - x, true)
  {
    FmodSmall(duration + x, duration * 2.0);
    FmodSmall(duration - x, duration * 2.0);
  }

  /**
   The turning points play forward: the test is a strict `wrapped > duration`,
   so the end of the sequence itself and each full cycle both count as forward.
   */
  lemma PingPongTurningPoints(duration: real)
    requires duration > 0.0
    ensures GetClampedTime(duration, duration, Some("ping-pong")) == ClampedTime(duration, true)
    ensures GetClampedTime(2.0 * duration, duration, Some("ping-pong")) == ClampedTime(0.0, true)
  {
    FmodSmall(duration, duration * 2.0);
    FmodShift(0.0, duration * 2.0);
    FmodSmall(0.0, duration * 2.0);
  }

  /** Playing backward happens exactly on the return leg of a ping-pong cycle. */
  lemma BackwardExactlyOnReturnLeg(time: real, duration: real, loopType: Option<string>)
    requires IsLoop(loopType) || IsPingPong(loopType) ==> duration > 0.0
    ensures !GetClampedTime(time, duration, loopType).isForward
        <==> IsPingPong(loopType) && Fmod(time, 2.0 * duration) > duration
  {
    if IsPingPong(loopType) {
      assert duration * 2.0 == 2.0 * duration;
    }
  }

  /** A negative time is not clamped by the wrapping modes: it stays in (-duration, 0], playing forward. */
  lemma NegativeTimeWrapsBelowZero(time: real, duration: real, loopType: Option<string>)
    requires time < 0.0 && duration > 0.0
    requires IsLoop(loopType) || IsPingPong(loopType)
    ensures GetClampedTime(time, duration, loopType).isForward
    ensures IsLoop(loopType) ==> -duration < GetClampedTime(time, duration, loopType).time <= 0.0
    ensures IsPingPong(loopType) ==> -2.0 * duration < GetClampedTime(time, duration, loopType).time <= 0.0
  {
  }

  /** A worked example: 7.5 into a ping-pong of 5 is 2.5, on the way back. */
  lemma PingPongExample()
    ensures GetClampedTime(7.5, 5.0, Some("ping-pong")) == ClampedTime(2.5, false)
  {
    FmodSmall(7.5, 10.0);
  }
}

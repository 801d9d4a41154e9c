/** The wildfire state: the time smoke was last detected, kept in a file, and
    the decay rule that says whether that detection is still current. Time is
    whole seconds. */
module Wildfire {
  import opened Wrappers

  /** The decay window `is_wildfire_active` uses when none is given: one hour. */
  const DefaultWindow: int := 3600

  /** Active iff a timestamp was stored and less than `sinceSecond` seconds
      have passed since it. */
  function IsWildfireActive(stored: Option<int>, now: int, sinceSecond: int): bool
  {
    match stored
    case None => false
    case Some(t) => now - t < sinceSecond
  }

  /** The state file. `stamp` is the time it holds, `None` while the file does not exist. */
  class WildfireFile {
    var stamp: Option<int>

    constructor (stamp: Option<int>)
      ensures this.stamp == stamp
    {
      this.stamp := stamp;
    }

    /** Records `now` as the last detection, overwriting any earlier one. */
    method SetWildfireActive(now: int)
      modifies this
      ensures stamp == Some(now)
    {
      stamp := Some(now);
    }
  }

  /** With no timestamp the state is inactive, whatever the clock and window. */
  lemma NeverMarkedIsInactive(now: int, sinceSecond: int)
    ensures !IsWildfireActive(None, now, sinceSecond)
  {
  }

  /** The window is half-open: active one second before it closes, inactive
      when exactly `sinceSecond` seconds have passed and at any time after. */
  lemma DecayBoundary(t: int, sinceSecond: int)
    ensures IsWildfireActive(Some(t), t + sinceSecond - 1, sinceSecond)
    ensures !IsWildfireActive(Some(t), t + sinceSecond, sinceSecond)
    ensures !IsWildfireActive(Some(t), t + sinceSecond + 1, sinceSecond)
  {
  }

  /** The state is active exactly on the times strictly before the window closes. */
  lemma ActiveWindow(t: int, now: int, sinceSecond: int)
    ensures IsWildfireActive(Some(t), now, sinceSecond) <==> now < t + sinceSecond
  {
  }

  /** Expiry is permanent: once inactive, the state stays inactive at every
      later time until a new detection is recorded. */
  lemma ExpiryIsPermanent(stored: Option<int>, now: int, later: int, sinceSecond: int)
    requires now <= later
    requires !IsWildfireActive(stored, now, sinceSecond)
    ensures !IsWildfireActive(stored, later, sinceSecond)
  {
  }

  /** A detection recorded at `markTime` is the one read back, and keeps the
      state active for the next `sinceSecond` seconds and no longer. */
  lemma MarkThenCheck(markTime: int, checkTime: int, sinceSecond: int)
    ensures IsWildfireActive(Some(markTime), checkTime, sinceSecond) <==> checkTime < markTime + sinceSecond
  {
  }
}

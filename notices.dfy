/**
 * The banners the card asks its host to show (`_showError`,
 * grok-code-fast-card.js, lines 446-458). Only the request is modelled: the
 * message, its kind and how long it stays up; the timers and the animation
 * are the host's.
 */
module Notices {

  datatype Level = Error | Warning | Success

  /** One call of `_showError(message, type, duration)`. */
  datatype Notice = Notice(message: string, level: Level, durationMs: int)

  /** The default duration of a banner (`BANNER_DISPLAY_DURATION_MS`). */
  const BannerDurationMs: int := 7500

  /** `_showError(message, type)` with the default duration. */
  function Banner(message: string, level: Level): (n: Notice)
    ensures n.message == message && n.level == level && n.durationMs == 7500
  {
    Notice(message, level, BannerDurationMs)
  }

  function DigitChar(d: nat): (c: char)
    requires d < 10
    ensures '0' <= c <= '9'
  {
    "0123456789"[d]
  }

  /** The decimal spelling of `n`, as a template literal prints it. */
  function NatToString(n: nat): (s: string)
    ensures |s| >= 1 && forall k :: 0 <= k < |s| ==> '0' <= s[k] <= '9'
  {
    if n < 10 then [DigitChar(n)] else NatToString(n / 10) + [DigitChar(n % 10)]
  }
}

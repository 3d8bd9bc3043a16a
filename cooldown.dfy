/**
 * The cooldown policy: `parseDuration` (app.js:107-120), the expiry rule of
 * `saveSentEmail` (app.js:60) and the on-cooldown test of `processEmails`
 * (app.js:190-191).  JavaScript's `Infinity` is `Forever`.
 */
module Cooldown {
  import opened Wrappers

  /** A millisecond count or instant, or `Infinity`. */
  datatype Extended = Finite(ms: int) | Forever

  /** One row of the `sentEmails` store; the store is keyed by address. */
  datatype SentRecord = SentRecord(lastSent: int, expiresAt: Extended)

  const DayMillis: nat := 24 * 60 * 60 * 1000

  predicate IsUnit(c: char) { c == 'd' || c == 'w' || c == 'm' || c == 'y' }

  /** The `msMap` table: a day, a week, a 30-day month, a 365-day year. */
  function UnitMillis(u: char): (r: nat)
    requires IsUnit(u)
    ensures r % DayMillis == 0 && r > 0
  {
    match u
      case 'd' => DayMillis
      case 'w' => 7 * DayMillis
      case 'm' => 30 * DayMillis
      case 'y' => 365 * DayMillis
  }

  predicate IsDigit(c: char) { '0' <= c <= '9' }

  predicate IsDigits(s: string) { forall i :: 0 <= i < |s| ==> IsDigit(s[i]) }

  /** The tokens the pattern `^(\d+)([dwmy])$` accepts. */
  predicate IsCountToken(token: string) {
    |token| >= 2 && IsDigits(token[..|token| - 1]) && IsUnit(token[|token| - 1])
  }

  /** `parseInt` of a decimal digit string. */
  function DigitsValue(s: string): nat
    requires IsDigits(s)
  {
    if s == [] then 0 else 10 * DigitsValue(s[..|s| - 1]) + (s[|s| - 1] as int - '0' as int)
  }

  /** The decimal spelling of `n` (no leading zeros), the inverse of `DigitsValue`. */
  function NatToDigits(n: nat): (r: string)
    ensures IsDigits(r) && |r| >= 1
  {
    var d := [(n % 10 + '0' as int) as char];
    if n < 10 then d else NatToDigits(n / 10) + d
  }

  lemma {:induction false} DigitsRoundTrip(n: nat)
    ensures DigitsValue(NatToDigits(n)) == n
  {
    var s := NatToDigits(n);
    if n >= 10 {
      DigitsRoundTrip(n / 10);
      assert s[..|s| - 1] == NatToDigits(n / 10);
    }
  }

  /**
   * `parseDuration`: `"never"` is infinite, `<digits><unit>` is the count times
   * the unit's length, and every other token silently means no cooldown.
   */
  function ParseDuration(token: string): (r: Extended)
    ensures r.Forever? <==> token == "never"
    ensures r.Finite? ==> r.ms >= 0
    ensures r.Finite? && r.ms != 0 ==> IsCountToken(token)
  {
    if token == "never" then Forever
    else if IsCountToken(token) then
      Finite(DigitsValue(token[..|token| - 1]) * UnitMillis(token[|token| - 1]))
    else Finite(0)
  }

  lemma ParseCountToken(n: nat, u: char)
    requires IsUnit(u)
    ensures ParseDuration(NatToDigits(n) + [u]) == Finite(n * UnitMillis(u))
  {
    var t := NatToDigits(n) + [u];
    assert t[..|t| - 1] == NatToDigits(n);
    DigitsRoundTrip(n);
  }

  lemma ParseMalformed(token: string)
    requires token != "never" && !IsCountToken(token)
    ensures ParseDuration(token) == Finite(0)
  {
  }

  /** The `expiresAt` that `saveSentEmail` stores for a send at `now` (app.js:60). */
  function ExpiryFor(cooldown: string, now: int): (r: Extended)
    ensures r.Forever? <==> cooldown == "never"
    ensures r.Finite? ==> r.ms == now + ParseDuration(cooldown).ms && r.ms >= now
  {
    if cooldown == "never" then Forever else Finite(now + ParseDuration(cooldown).ms)
  }

  /** `now < expiresAt`, with every instant before `Infinity`. */
  predicate Before(now: int, expiresAt: Extended) {
    match expiresAt
      case Forever => true
      case Finite(t) => now < t
  }

  /** `sentRecord && Date.now() < sentRecord.expiresAt` (app.js:191). */
  predicate OnCooldown(rec: Option<SentRecord>, now: int) {
    rec.Some? && Before(now, rec.value.expiresAt)
  }

  /** A send under `"never"` is on cooldown at every later or earlier instant. */
  lemma NeverIsForever(sentAt: int, now: int)
    ensures OnCooldown(Some(SentRecord(sentAt, ExpiryFor("never", sentAt))), now)
  {
  }

  /**
   * A send at `t0` under a `<n>d` cooldown keeps the address on cooldown exactly
   * for instants before `t0 + n` days.
   */
  lemma DaysCooldownWindow(n: nat, t0: int, now: int)
    ensures OnCooldown(Some(SentRecord(t0, ExpiryFor(NatToDigits(n) + "d", t0))), now)
            <==> now < t0 + n * DayMillis
  {
    assert NatToDigits(n) + "d" != "never" by {
      var t := NatToDigits(n) + "d";
      assert t[|t| - 1] == 'd';
    }
    ParseCountToken(n, 'd');
  }

  /** The seven-day round trip: on cooldown six days later, eligible again eight days later. */
  lemma SevenDayRoundTrip(t0: int)
    ensures OnCooldown(Some(SentRecord(t0, ExpiryFor("7d", t0))), t0 + 6 * DayMillis)
    ensures !OnCooldown(Some(SentRecord(t0, ExpiryFor("7d", t0))), t0 + 8 * DayMillis)
  {
    assert NatToDigits(7) == "7";
    DaysCooldownWindow(7, t0, t0 + 6 * DayMillis);
    DaysCooldownWindow(7, t0, t0 + 8 * DayMillis);
  }

  /**
   * Right after a send, the stored record holds the address back exactly when
   * the cooldown is `"never"` or a token with a nonzero length; a malformed
   * token gives a record that has already expired.
   */
  lemma FreshSendOnCooldown(cooldown: string, now: int)
    ensures OnCooldown(Some(SentRecord(now, ExpiryFor(cooldown, now))), now)
            <==> cooldown == "never" || ParseDuration(cooldown).ms > 0
  {
  }
}

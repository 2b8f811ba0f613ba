/** Reading a Retry-After header, as src/lib/session-validation.ts does. */
module RetryAfter {
  import opened Wrappers
  import opened Decimal
  import opened Whitespace

  function CeilSeconds(ms: int): int {
    -((-ms) / 1000)
  }

  /** RFC 9110 Retry-After: delay-seconds or an HTTP-date, in whole seconds from now, never negative. */
  function Seconds(header: Option<string>, now: int, dateOf: string -> Option<int>): Option<nat> {
    if header.None? || header.value == "" then None
    else
      var trimmed := Trim(header.value);
      if AllDigits(trimmed) then Some(ParseInt(trimmed))
      else
        match dateOf(trimmed)
        case None => None
        case Some(at) => Some(if CeilSeconds(at - now) > 0 then CeilSeconds(at - now) else 0)
  }

  /** Nothing is read exactly from an absent or empty header, and from one that is neither digits nor a date. */
  lemma NothingReadIff(header: Option<string>, now: int, dateOf: string -> Option<int>)
    ensures Seconds(header, now, dateOf) == None <==>
            || header == None || header == Some("")
            || (!AllDigits(Trim(header.value)) && dateOf(Trim(header.value)) == None)
  {
  }

  /** A printed number of seconds is read back, whatever white space surrounds it. */
  lemma DelaySecondsRoundTrip(n: nat, before: string, after: string, now: int, dateOf: string -> Option<int>)
    requires forall i :: 0 <= i < |before| ==> IsSpace(before[i])
    requires forall i :: 0 <= i < |after| ==> IsSpace(after[i])
    ensures Seconds(Some(before + ToText(n) + after), now, dateOf) == Some(n)
  {
    TrimOf(before, ToText(n), after);
    ParseToText(n);
  }

  /** Waiting the seconds read from a date reaches the date, and one second less would not. */
  lemma DateIsReached(header: string, now: int, at: int, dateOf: string -> Option<int>)
    requires header != "" && !AllDigits(Trim(header)) && dateOf(Trim(header)) == Some(at)
    ensures var r := Seconds(Some(header), now, dateOf);
      r.Some? && now + 1000 * r.value >= at && (r.value > 0 ==> now + 1000 * (r.value - 1) < at)
  {
    var ms := at - now;
    assert -ms == 1000 * ((-ms) / 1000) + (-ms) % 1000;
  }
}

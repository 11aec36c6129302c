/** `formatExpiry` of the share-link panel (`client/src/components/ShareLink.jsx`). */
module ShareLink {
  import opened Strings
  import Http
  import Wrappers

  /** `${n} ${unit}` with an 's' when `n > 1`. */
  function Quantity(n: nat, unit: string): string
  {
    NatToString(n) + " " + unit + (if n > 1 then "s" else "")
  }

  /**
   * `formatExpiry`: below a minute the seconds (always "seconds"), below an
   * hour the whole minutes, otherwise the whole hours, with no larger unit.
   */
  function FormatExpiry(seconds: nat): (shown: string)
    ensures seconds < 60 ==> shown == NatToString(seconds) + " seconds"
    ensures 60 <= seconds < 3600 ==> shown == Quantity(seconds / 60, "minute")
    ensures 3600 <= seconds ==> shown == Quantity(seconds / 3600, "hour")
  {
    FloorTwice(seconds);
    if seconds < 60 then NatToString(seconds) + " seconds"
    else
      var minutes := seconds / 60;
      if minutes < 60 then NatToString(minutes) + " minute" + (if minutes > 1 then "s" else "")
      else
        var hours := minutes / 60;
        NatToString(hours) + " hour" + (if hours > 1 then "s" else "")
  }

  /** Rounding down to minutes and then to hours is rounding down to hours. */
  lemma FloorTwice(seconds: nat)
    ensures seconds / 60 / 60 == seconds / 3600
  {
    var minutes := seconds / 60;
    var hours := minutes / 60;
    assert minutes * 60 <= seconds < minutes * 60 + 60;
    assert hours * 60 <= minutes < hours * 60 + 60;
    assert hours * 3600 <= seconds < hours * 3600 + 3600;
  }

  /**
   * The unit is chosen by the size of the duration, and the count shown is
   * the duration rounded down to that unit: whole minutes below an hour,
   * whole hours from an hour on (rounding down twice equals rounding down
   * once by 3600). The unit is singular exactly when the count is 1.
   */
  lemma FormatExpiryRoundsDown(seconds: nat)
    ensures seconds < 60 ==> FormatExpiry(seconds) == NatToString(seconds) + " seconds"
    ensures 60 <= seconds < 3600 ==>
      && FormatExpiry(seconds) == Quantity(seconds / 60, "minute")
      && 1 <= seconds / 60 < 60 && (seconds / 60) * 60 <= seconds < (seconds / 60 + 1) * 60
    ensures 3600 <= seconds ==>
      && FormatExpiry(seconds) == Quantity(seconds / 3600, "hour")
      && 1 <= seconds / 3600 && (seconds / 3600) * 3600 <= seconds < (seconds / 3600 + 1) * 3600
  {
    if 3600 <= seconds {
      var minutes := seconds / 60;
      var hours := minutes / 60;
      assert minutes * 60 <= seconds < minutes * 60 + 60;
      assert hours * 60 <= minutes < hours * 60 + 60;
      assert hours * 3600 <= seconds < hours * 3600 + 3600;
      assert hours == seconds / 3600;
    }
  }

  /** The five durations the server can report are shown as the option names read. */
  lemma ServerDurations()
    ensures FormatExpiry(300) == "5 minutes"
    ensures FormatExpiry(600) == "10 minutes"
    ensures FormatExpiry(1800) == "30 minutes"
    ensures FormatExpiry(3600) == "1 hour"
    ensures FormatExpiry(86400) == "24 hours"
  {
    Minutes(300, 5, "5 minutes");
    Minutes(600, 10, "10 minutes");
    Minutes(1800, 30, "30 minutes");
    assert Quantity(1, "hour") == "1 hour";
    assert NatToString(24) == "24";
    assert Quantity(24, "hour") == "24 hours";
  }

  /** A duration of several whole minutes below an hour is shown in minutes. */
  lemma Minutes(seconds: nat, minutes: nat, shown: string)
    requires 60 <= seconds < 3600 && seconds / 60 == minutes && minutes > 1
    requires NatToString(minutes) + " minutes" == shown
    ensures FormatExpiry(seconds) == shown
  {
  }

  /** Whatever expiry option the server was given, the reply formats as one of the five labels. */
  lemma ReplyDurationLabel(expiresIn: string)
    ensures FormatExpiry(Http.ExpirySeconds(Http.NormaliseExpiry(Wrappers.Some(expiresIn)))) in
      ["5 minutes", "10 minutes", "30 minutes", "1 hour", "24 hours"]
  {
    ServerDurations();
  }

  /** There is no unit above hours: two days read as 48 hours. */
  lemma HoursAreUnbounded()
    ensures FormatExpiry(172800) == "48 hours"
  {
    assert FormatExpiry(172800) == Quantity(48, "hour");
    assert NatToString(48) == "48";
    assert Quantity(48, "hour") == "48 hours";
  }
}

/** `calculateDuration`: the "Duration" cell text for a check-in/check-out pair.
    The whole-minute difference between the two instants is computed by a
    date library and is an input here: `None` means there is no check-out. */
module Duration {

  import opened Wrappers
  import opened Text

  const InProgress := "In Progress"

  /** JavaScript's `a % b`: the remainder of division truncated toward zero,
      so it takes the sign of `a` (unlike Dafny's `%`, which is never negative). */
  function JsRemainder(a: int, b: int): (r: int)
    requires b > 0
    ensures -b < r < b
    ensures a >= 0 ==> 0 <= r && r == a % b
    ensures a < 0 ==> r <= 0
  {
    if a >= 0 then a % b else -((-a) % b)
  }

  /** `Math.floor(a / b)` for a positive divisor. */
  function JsFloorDiv(a: int, b: int): (q: int)
    requires b > 0
    ensures q * b <= a < (q + 1) * b
  {
    a / b
  }

  /** `Math.trunc(a / b)` for a positive divisor. */
  function JsTruncDiv(a: int, b: int): (q: int)
    requires b > 0
    ensures a >= 0 ==> q == JsFloorDiv(a, b)
    ensures q * b + JsRemainder(a, b) == a
  {
    if a >= 0 then a / b else -((-a) / b)
  }

  /** The template `${hours}h ${remainingMinutes}m`: it starts with the hours'
      sign or first digit and ends in 'm'; it reads back as the two parts
      (HoursMinutesParses). */
  function HoursMinutes(hours: int, minutes: int): (s: string)
    ensures |s| >= 5 && s[|s| - 1] == 'm'
    ensures s[0] == '-' || IsDigit(s[0])
  {
    IntToString(hours) + "h " + IntToString(minutes) + "m"
  }

  /** `calculateDuration` exactly as written: hours by `Math.floor`, minutes by
      the truncating `%`. For a negative difference the two parts disagree
      (see NegativeDurationAsWritten). */
  function CalculateDurationAsWritten(elapsed: Option<int>): (s: string)
    ensures elapsed.None? <==> s == InProgress
  {
    match elapsed
    case None => InProgress
    case Some(m) =>
      var s := HoursMinutes(JsFloorDiv(m, 60), JsRemainder(m, 60));
      assert s[0] != 'I';
      s
  }

  /** `calculateDuration` with the hours truncated toward zero like the
      minutes, so that the two parts always add back to the difference. It
      agrees with the code as written for every difference that is not negative. */
  function CalculateDuration(elapsed: Option<int>): (s: string)
    ensures elapsed.None? <==> s == InProgress
    ensures elapsed.Some? && elapsed.value >= 0 ==> s == CalculateDurationAsWritten(elapsed)
  {
    match elapsed
    case None => InProgress
    case Some(m) =>
      var s := HoursMinutes(JsTruncDiv(m, 60), JsRemainder(m, 60));
      assert s[0] != 'I';
      s
  }

  /** Index of the first `c` in `s`, or `|s|` when there is none. */
  function FindChar(s: string, c: char): (k: nat)
    ensures k <= |s|
    ensures k < |s| ==> s[k] == c
    ensures forall i :: 0 <= i < k ==> s[i] != c
  {
    if s == [] then 0 else if s[0] == c then 0 else 1 + FindChar(s[1..], c)
  }

  /** Reads a duration text back into its hours and minutes parts. */
  function ParseDuration(s: string): Option<(int, int)>
  {
    var k := FindChar(s, 'h');
    if k + 3 <= |s| && s[k + 1] == ' ' && s[|s| - 1] == 'm' then
      var hours := ParseInt(s[..k]);
      var minutes := ParseInt(s[k + 2..|s| - 1]);
      if hours.Some? && minutes.Some? then Some((hours.value, minutes.value)) else None
    else None
  }

  /** The number of minutes a duration text claims: hours * 60 + minutes. */
  function ShownMinutes(s: string): Option<int>
  {
    match ParseDuration(s)
    case None => None
    case Some(parts) => Some(parts.0 * 60 + parts.1)
  }

  lemma {:induction false} FindCharAfter(a: string, b: string, c: char)
    requires forall i :: 0 <= i < |a| ==> a[i] != c
    ensures FindChar(a + b, c) == |a| + FindChar(b, c)
    decreases |a|
  {
    if a != [] {
      assert (a + b)[0] == a[0] != c;
      assert (a + b)[1..] == a[1..] + b;
      assert forall i :: 0 <= i < |a[1..]| ==> a[1..][i] == a[i + 1];
      FindCharAfter(a[1..], b, c);
      assert FindChar(a + b, c) == 1 + FindChar(a[1..] + b, c);
    } else {
      assert a + b == b;
    }
  }

  /** Where the parser finds the parts of `a + "h " + b + "m"` when `a` has no 'h'. */
  lemma DurationLayout(a: string, b: string)
    requires forall i :: 0 <= i < |a| ==> a[i] != 'h'
    ensures var s := a + ("h " + b + "m");
      && FindChar(s, 'h') == |a| && |a| + 3 <= |s|
      && s[|a| + 1] == ' ' && s[|s| - 1] == 'm'
      && s[..|a|] == a && s[|a| + 2..|s| - 1] == b
  {
    var tail := "h " + b + "m";
    FindCharAfter(a, tail, 'h');
    assert (a + tail)[..|a|] == a;
    assert (a + tail)[|a| + 2..|a + tail| - 1] == tail[2..|tail| - 1] == b;
  }

  /** The text of any hours/minutes pair reads back as that pair. */
  lemma HoursMinutesParses(hours: int, minutes: int)
    ensures ParseDuration(HoursMinutes(hours, minutes)) == Some((hours, minutes))
  {
    var a, b := IntToString(hours), IntToString(minutes);
    assert HoursMinutes(hours, minutes) == a + ("h " + b + "m");
    DurationLayout(a, b);
    IntToStringRoundTrip(hours);
    IntToStringRoundTrip(minutes);
  }

  /** For a difference m >= 0 the text is "{h}h {r}m" with h = m div 60 and
      r = m mod 60: 0 <= r < 60 and h * 60 + r == m. */
  lemma DurationSplitsMinutes(m: int)
    requires m >= 0
    ensures ParseDuration(CalculateDurationAsWritten(Some(m))) == Some((m / 60, m % 60))
    ensures 0 <= m % 60 < 60 && (m / 60) * 60 + m % 60 == m
    ensures ShownMinutes(CalculateDurationAsWritten(Some(m))) == Some(m)
  {
    HoursMinutesParses(m / 60, m % 60);
  }

  /** The corrected text always shows exactly the minute difference. */
  lemma DurationShowsDifference(m: int)
    ensures ShownMinutes(CalculateDuration(Some(m))) == Some(m)
    ensures ParseDuration(CalculateDuration(Some(m))).Some?
    ensures var parts := ParseDuration(CalculateDuration(Some(m))).value;
      -60 < parts.1 < 60 && (m >= 0 ==> parts.0 >= 0 && parts.1 >= 0) && (m <= 0 ==> parts.0 <= 0 && parts.1 <= 0)
  {
    var h, r := JsTruncDiv(m, 60), JsRemainder(m, 60);
    assert CalculateDuration(Some(m)) == HoursMinutes(h, r);
    HoursMinutesParses(h, r);
    assert h * 60 + r == m;
  }

  /** What the text as written adds back to, for any difference. */
  lemma AsWrittenMinutes(m: int)
    ensures m >= 0 ==> ShownMinutes(CalculateDurationAsWritten(Some(m))) == Some(m)
    ensures m < 0 && JsRemainder(m, 60) != 0 ==> ShownMinutes(CalculateDurationAsWritten(Some(m))) == Some(m - 60)
  {
    if m >= 0 {
      DurationSplitsMinutes(m);
    } else if JsRemainder(m, 60) != 0 {
      NegativeDurationOffByAnHour(m);
    }
  }

  /** Distinct non-negative differences give distinct texts. */
  lemma DurationInjective(m1: int, m2: int)
    requires m1 >= 0 && m2 >= 0
    requires CalculateDurationAsWritten(Some(m1)) == CalculateDurationAsWritten(Some(m2))
    ensures m1 == m2
  {
    DurationSplitsMinutes(m1);
    DurationSplitsMinutes(m2);
  }

  /** As written, a check-out 90 minutes before the check-in shows "-2h -30m",
      which adds back to -150 minutes, not -90. */
  lemma NegativeDurationAsWritten()
    ensures CalculateDurationAsWritten(Some(-90)) == "-2h -30m"
    ensures ShownMinutes(CalculateDurationAsWritten(Some(-90))) == Some(-150)
  {
    NinetyMinutesBackParts();
    NinetyMinutesBackText();
    HoursMinutesParses(-2, -30);
  }

  /** As written, every negative difference that is not a whole number of
      hours shows one hour less than it is: the hours are rounded down and
      the minutes toward zero. */
  lemma NegativeDurationOffByAnHour(m: int)
    requires m < 0 && JsRemainder(m, 60) != 0
    ensures ShownMinutes(CalculateDurationAsWritten(Some(m))) == Some(m - 60)
    ensures ShownMinutes(CalculateDuration(Some(m))) == Some(m)
  {
    var q, t, r := JsFloorDiv(m, 60), JsTruncDiv(m, 60), JsRemainder(m, 60);
    assert t * 60 + r == m && -60 < r < 0;
    assert q * 60 <= m < t * 60 < m + 60 < (q + 2) * 60;
    assert q + 1 == t;
    HoursMinutesParses(q, r);
    DurationShowsDifference(m);
  }

  lemma NinetyMinutesBackParts()
    ensures JsFloorDiv(-90, 60) == -2 && JsRemainder(-90, 60) == -30
  {
  }

  lemma NinetyMinutesBackText()
    ensures HoursMinutes(-2, -30) == "-2h -30m"
  {
    assert NatToString(2) == "2";
    assert NatToString(30) == "30";
  }

  /** 09:00 to 17:30 is 510 minutes: "8h 30m". */
  lemma WorkdayExample()
    ensures CalculateDuration(Some(510)) == "8h 30m"
  {
    assert NatToString(8) == "8";
    assert NatToString(30) == "30";
  }
}

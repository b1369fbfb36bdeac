/** The hero section's countdown text: a remaining time in milliseconds
    rendered as "<d>d <h>h <m>m <s>s", or "00:00:00:00" once the time has
    run out. The timer that produces the milliseconds is not modelled. */
module Countdown {
  import opened Wrappers
  import opened Text

  const MsPerSecond: nat := 1000
  const MsPerMinute: nat := 1000 * 60
  const MsPerHour: nat := 1000 * 60 * 60
  const MsPerDay: nat := 1000 * 60 * 60 * 24

  /** The text shown when no time is left. */
  const Expired: string := "00:00:00:00"

  datatype Parts = Parts(days: nat, hours: nat, minutes: nat, seconds: nat)

  /** `Math.floor(ms / unit) % modulus` for a positive integral `ms`: the
      floating-point division and floor agree with integer division there. */
  function Decompose(ms: int): (p: Parts)
    requires ms > 0
    ensures p.hours < 24 && p.minutes < 60 && p.seconds < 60
    ensures p.days * 86400 + p.hours * 3600 + p.minutes * 60 + p.seconds == ms / MsPerSecond
  {
    var t := ms / MsPerSecond;
    assert ms / MsPerMinute == t / 60;
    assert ms / MsPerHour == t / 3600;
    assert ms / MsPerDay == t / 86400;
    assert t / 3600 == (t / 60) / 60;
    assert t / 86400 == (t / 3600) / 24;
    Parts(ms / MsPerDay, (ms / MsPerHour) % 24, (ms / MsPerMinute) % 60, t % 60)
  }

  /** One component followed by its unit letter. */
  function Field(n: nat, unit: char): string
  {
    NatToString(n) + [unit]
  }

  /** The components, each with its unit letter, separated by single
      spaces. */
  function Render(ns: seq<nat>, units: string): string
    requires |ns| == |units| > 0
  {
    if |ns| == 1 then Field(ns[0], units[0])
    else Field(ns[0], units[0]) + " " + Render(ns[1..], units[1..])
  }

  const Units: string := "dhms"

  /** `formatTime(ms)`. */
  function FormatTime(ms: int): (text: string)
    ensures ms <= 0 <==> text == Expired
  {
    if ms <= 0 then Expired
    else
      var p := Decompose(ms);
      var text := Render([p.days, p.hours, p.minutes, p.seconds], Units);
      assert text[|NatToString(p.days)|] == 'd';
      assert Expired[2] == ':';
      text
  }

  // ---------------------------------------------------------------------
  // Reading the text back
  // ---------------------------------------------------------------------

  /** Reads a decimal number without leading zeros followed by `unit`;
      yields the number and the text after the unit. */
  function ReadField(s: string, unit: char): Option<(nat, string)>
  {
    var k := LeadingDigits(s);
    if 0 < k < |s| && (k == 1 || s[0] != '0') && s[k] == unit then Some((DigitsValue(s[..k]), s[k + 1..])) else None
  }

  /** Reads components with the given unit letters, separated by single
      spaces, up to the end of the text. */
  function Scan(s: string, units: string): Option<seq<nat>>
    requires |units| > 0
    decreases |units|
  {
    match ReadField(s, units[0])
    case None => None
    case Some((n, rest)) =>
      if |units| == 1 then (if rest == [] then Some([n]) else None)
      else if |rest| == 0 || rest[0] != ' ' then None
      else
        match Scan(rest[1..], units[1..])
        case None => None
        case Some(ns) => Some([n] + ns)
  }

  lemma ScanStep(s: string, units: string, n: nat, rest: string, ns: seq<nat>)
    requires |units| > 1
    requires ReadField(s, units[0]) == Some((n, rest))
    requires |rest| > 0 && rest[0] == ' ' && Scan(rest[1..], units[1..]) == Some(ns)
    ensures Scan(s, units) == Some([n] + ns)
  {
  }

  /** The inverse of the positive case of FormatTime. */
  function ParseCountdown(s: string): Option<Parts>
  {
    match Scan(s, Units)
    case Some(ns) => if |ns| == 4 then Some(Parts(ns[0], ns[1], ns[2], ns[3])) else None
    case None => None
  }

  lemma ReadFieldOf(n: nat, unit: char, rest: string)
    requires !IsDigit(unit)
    ensures ReadField(Field(n, unit) + rest, unit) == Some((n, rest))
  {
    var ds := NatToString(n);
    var s := Field(n, unit) + rest;
    assert s == ds + ([unit] + rest);
    assert forall i :: 0 <= i < |ds| ==> s[i] == ds[i];
    assert s[|ds|] == unit;
    assert LeadingDigits(s) == |ds|;
    assert s[..|ds|] == ds;
    assert s[|ds| + 1..] == rest;
    NatToStringRoundTrip(n);
  }

  /** Scanning rendered components gives them back, for any unit letters
      that are not digits. */
  lemma {:induction false} ScanRender(ns: seq<nat>, units: string)
    requires |ns| == |units| > 0
    requires forall i :: 0 <= i < |units| ==> !IsDigit(units[i])
    ensures Scan(Render(ns, units), units) == Some(ns)
    decreases |units|
  {
    var f := Field(ns[0], units[0]);
    if |ns| == 1 {
      ReadFieldOf(ns[0], units[0], []);
      assert Render(ns, units) == f + [];
      assert [ns[0]] == ns;
    } else {
      var tail := Render(ns[1..], units[1..]);
      var rest := " " + tail;
      assert Render(ns, units) == f + rest;
      ScanRender(ns[1..], units[1..]);
      ReadFieldOf(ns[0], units[0], rest);
      assert rest[1..] == tail;
      ScanStep(f + rest, units, ns[0], rest, ns[1..]);
      assert [ns[0]] + ns[1..] == ns;
    }
  }

  /** The countdown text determines the four components it was made from. */
  lemma FormatTimeRoundTrip(ms: int)
    requires ms > 0
    ensures ParseCountdown(FormatTime(ms)) == Some(Decompose(ms))
  {
    var p := Decompose(ms);
    ScanRender([p.days, p.hours, p.minutes, p.seconds], Units);
  }

  /** The expired text is not of the positive form. */
  lemma ExpiredDoesNotParse()
    ensures ParseCountdown(Expired) == None
  {
    assert LeadingDigits(Expired) == 2 by {
      assert IsDigit(Expired[0]) && IsDigit(Expired[1]) && !IsDigit(Expired[2]);
    }
  }

  /** There is no zero padding, and times under a second show all zeros. */
  lemma SubSecondExample()
    ensures FormatTime(999) == "0d 0h 0m 0s"
  {
    assert Decompose(999) == Parts(0, 0, 0, 0);
    assert NatToString(0) == "0";
  }

  lemma OneOfEachExample()
    ensures FormatTime(90061000) == "1d 1h 1m 1s"
  {
    assert Decompose(90061000) == Parts(1, 1, 1, 1);
    assert NatToString(1) == "1";
  }
}

/** `secondsToTimeString`: a whole number of seconds as `MM:SS`, or as
    `HH:MM:SS` once there is at least one hour. Every field has at least two
    digits; hours may have more. */
module TimeFormat {
  import opened Records
  import opened Digits
  import opened Text

  /** A duration broken into hours, minutes and seconds. */
  datatype Clock = Clock(hrs: nat, min: nat, secs: nat)

  /** The seconds, then the minutes of what remains, then the hours. */
  function Decompose(value: nat): (c: Clock)
    ensures c.hrs * 3600 + c.min * 60 + c.secs == value
    ensures c.min < 60 && c.secs < 60
    ensures c.hrs == 0 <==> value < 3600
  {
    var secs := value % 60;
    var val2 := (value - secs) / 60;
    var min := val2 % 60;
    var hrs := (val2 - min) / 60;
    Clock(hrs, min, secs)
  }

  /** A field: a single digit gets a leading zero. */
  function Field(n: nat): (s: string)
    ensures AllDigits(s) && |s| >= 2
    ensures n < 100 ==> |s| == 2
    ensures s[0] == '0' <==> n < 10
  {
    if n < 10 then "0" + Show(n) else Show(n)
  }

  lemma FieldValue(n: nat)
    ensures Value(Field(n)) == n
  {
    ValueOfShow(n);
    if n < 10 {
      LeadingZero(Show(n));
    }
  }

  /** The padded minutes and seconds, preceded by the padded hours once
      there is at least one hour, joined with colons. */
  function SecondsToTimeString(value: nat): (r: string)
    ensures |r| == (if value < 3600 then 5 else |Field(Decompose(value).hrs)| + 6)
    ensures var c := Decompose(value);
            SplitOn(r, ':') == (if c.hrs == 0 then [Field(c.min), Field(c.secs)] else [Field(c.hrs), Field(c.min), Field(c.secs)])
  {
    var c := Decompose(value);
    var hrsText := Field(c.hrs);
    var minText := Field(c.min);
    var secText := Field(c.secs);
    JoinFields(hrsText, minText, secText);
    var ls := if c.hrs == 0 then [minText, secText] else [hrsText, minText, secText];
    SplitOnJoin(ls, ':');
    if c.hrs == 0 then minText + ":" + secText
    else hrsText + ":" + minText + ":" + secText
  }

  /** Digit fields joined with colons split back into those fields. */
  lemma JoinFields(h: string, m: string, s: string)
    requires AllDigits(h) && AllDigits(m) && AllDigits(s)
    ensures Join([m, s], ':') == m + ":" + s
    ensures Join([h, m, s], ':') == h + ":" + m + ":" + s
    ensures forall k :: 0 <= k < 2 ==> ':' !in [m, s][k]
    ensures forall k :: 0 <= k < 3 ==> ':' !in [h, m, s][k]
  {
    NoColon(h);
    NoColon(m);
    NoColon(s);
    assert Join([s], ':') == s;
    assert Join([h, m, s][1..], ':') == m + ":" + s by {
      assert [h, m, s][1..] == [m, s];
    }
  }

  /** Reads `M:S` or `H:M:S` with non-empty digit fields as a number of
      seconds; anything else is None. */
  function ParseTime(t: string): (r: Option<nat>)
    ensures r.Some? ==> |SplitOn(t, ':')| in {2, 3}
  {
    var fs := SplitOn(t, ':');
    if (|fs| == 2 || |fs| == 3) && forall k :: 0 <= k < |fs| ==> fs[k] != [] && AllDigits(fs[k]) then
      if |fs| == 2 then Some(Value(fs[0]) * 60 + Value(fs[1]))
      else Some(Value(fs[0]) * 3600 + Value(fs[1]) * 60 + Value(fs[2]))
    else None
  }

  lemma NoColon(s: string)
    requires AllDigits(s)
    ensures ':' !in s
  {
  }

  /** The rendering is read back as the same number of seconds, and it has
      an hours field exactly when the value is at least an hour. */
  lemma RoundTrip(value: nat)
    ensures ParseTime(SecondsToTimeString(value)) == Some(value)
    ensures |SplitOn(SecondsToTimeString(value), ':')| == (if value < 3600 then 2 else 3)
  {
    var c := Decompose(value);
    FieldValue(c.hrs);
    FieldValue(c.min);
    FieldValue(c.secs);
  }
}

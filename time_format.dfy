/**
  The "estimated remaining" text of the progress line (format_time): a number of
  whole seconds split into days, hours, minutes and seconds, rendered as
  `Estimated remaining: [D days ]HH:MM:SS`.
 */
module TimeFormat {
  import opened Wrappers
  import opened Arithmetic

  const SECONDS_PER_DAY: nat := 24 * 3600
  const PREFIX: string := "Estimated remaining: "

  /** A duration in days, hours, minutes and seconds. */
  datatype Clock = Clock(days: nat, hours: nat, minutes: nat, seconds: nat)

  /** Every field below days is within its radix. */
  predicate Normal(c: Clock) {
    c.hours < 24 && c.minutes < 60 && c.seconds < 60
  }

  /** The number of seconds a clock stands for. */
  function TotalSeconds(c: Clock): nat {
    c.days * SECONDS_PER_DAY + c.hours * 3600 + c.minutes * 60 + c.seconds
  }

  /** The successive floor divisions and remainders of format_time. */
  function Decompose(seconds: nat): (c: Clock)
    ensures Normal(c)
    ensures TotalSeconds(c) == seconds
  {
    var days := seconds / SECONDS_PER_DAY;
    var inDay := seconds % SECONDS_PER_DAY;
    var hours := inDay / 3600;
    var inHour := inDay % 3600;
    Clock(days, hours, inHour / 60, inHour % 60)
  }

  /** A normal clock is recovered from the seconds it stands for: the decomposition is unique. */
  lemma DecomposeTotal(c: Clock)
    requires Normal(c)
    ensures Decompose(TotalSeconds(c)) == c
  {
    var s := TotalSeconds(c);
    var inDay := c.hours * 3600 + c.minutes * 60 + c.seconds;
    assert inDay < SECONDS_PER_DAY;
    assert s / SECONDS_PER_DAY == c.days && s % SECONDS_PER_DAY == inDay
      by { DivModUnique(s, SECONDS_PER_DAY, c.days, inDay); }
    var inHour := c.minutes * 60 + c.seconds;
    assert inDay / 3600 == c.hours && inDay % 3600 == inHour
      by { DivModUnique(inDay, 3600, c.hours, inHour); }
    assert inHour / 60 == c.minutes && inHour % 60 == c.seconds
      by { DivModUnique(inHour, 60, c.minutes, c.seconds); }
  }

  // ---------------------------------------------------------------------------
  // Decimal digits.

  predicate IsDigit(ch: char) {
    '0' <= ch <= '9'
  }

  predicate AllDigits(s: string) {
    forall i :: 0 <= i < |s| ==> IsDigit(s[i])
  }

  function DigitChar(d: nat): (ch: char)
    requires d < 10
    ensures IsDigit(ch)
  {
    ('0' as int + d) as char
  }

  function DigitValue(ch: char): (d: nat)
    requires IsDigit(ch)
    ensures d < 10
  {
    ch as int - '0' as int
  }

  /** Python's `{n}`: the decimal digits of `n`, without leading zeros. */
  function Decimal(n: nat): (s: string)
    ensures |s| >= 1 && AllDigits(s)
    ensures n < 10 <==> |s| == 1
    ensures s[0] == '0' <==> n == 0
    decreases n
  {
    if n < 10 then [DigitChar(n)] else Decimal(n / 10) + [DigitChar(n % 10)]
  }

  /** The value of a string of decimal digits. */
  function ParseDecimal(s: string): nat
    requires AllDigits(s)
  {
    if s == [] then 0 else ParseDecimal(s[..|s| - 1]) * 10 + DigitValue(s[|s| - 1])
  }

  /** Reading back the digits of `n` gives `n`. */
  lemma {:induction false} ParseDecimalInverse(n: nat)
    ensures ParseDecimal(Decimal(n)) == n
    decreases n
  {
    var s := Decimal(n);
    if n >= 10 {
      assert s[..|s| - 1] == Decimal(n / 10);
      ParseDecimalInverse(n / 10);
    }
  }

  /** Python's `{n:02d}`: at least two digits, padded with a leading zero. */
  function Pad2(n: nat): (s: string)
    ensures AllDigits(s)
    ensures n < 100 ==> |s| == 2
  {
    if n < 10 then "0" + Decimal(n) else Decimal(n)
  }

  /** Reading back a padded field gives its value. */
  lemma Pad2Inverse(n: nat)
    ensures ParseDecimal(Pad2(n)) == n
  {
    ParseDecimalInverse(n);
    if n < 10 {
      var s := Pad2(n);
      assert s[..1] == "0";
      assert ParseDecimal(s[..1]) == 0 by { assert s[..1][..0] == []; }
    }
  }

  // ---------------------------------------------------------------------------
  // The rendered text.

  /** `{hours:02d}:{minutes:02d}:{seconds:02d}`: for a normal clock, eight characters
      of the `HH:MM:SS` shape. */
  function ClockText(c: Clock): (text: string)
    ensures Normal(c) ==> ClockShape(text)
  {
    var hh, mm, ss := Pad2(c.hours), Pad2(c.minutes), Pad2(c.seconds);
    var text := hh + ":" + mm + ":" + ss;
    if Normal(c) then
      assert hh == [hh[0], hh[1]] && mm == [mm[0], mm[1]] && ss == [ss[0], ss[1]];
      assert text == [hh[0], hh[1], ':', mm[0], mm[1], ':', ss[0], ss[1]];
      text
    else text
  }

  /** Eight characters: two digits, a colon, two digits, a colon, two digits. */
  predicate ClockShape(s: string) {
    && |s| == 8
    && IsDigit(s[0]) && IsDigit(s[1]) && s[2] == ':'
    && IsDigit(s[3]) && IsDigit(s[4]) && s[5] == ':'
    && IsDigit(s[6]) && IsDigit(s[7])
  }

  /** The days segment `{days} days `, present only when there is at least one whole day. */
  function DaysText(days: nat): (text: string)
    ensures text == "" <==> days == 0
    ensures days > 0 ==> |text| > 6 && text[|text| - 6..] == " days " && AllDigits(text[..|text| - 6])
  {
    if days > 0 then
      var text := Decimal(days) + " days ";
      assert text[..|text| - 6] == Decimal(days);
      text
    else ""
  }

  /** format_time on a whole number of seconds. */
  function FormatTime(seconds: nat): (s: string)
    ensures |s| >= |PREFIX| + 8 && s[..|PREFIX|] == PREFIX
    ensures |s| == |PREFIX| + 8 <==> seconds < SECONDS_PER_DAY
    ensures ClockShape(s[|s| - 8..])
  {
    var c := Decompose(seconds);
    var head, clock := DaysText(c.days), ClockText(c);
    ClockTextParts(c);
    assert head == "" <==> seconds < SECONDS_PER_DAY by { DaysTextEmpty(seconds); }
    ProgressLineLayout(head, clock);
    PREFIX + head + clock
  }

  /** The days segment is empty exactly when there is less than one day. */
  lemma DaysTextEmpty(seconds: nat)
    ensures DaysText(Decompose(seconds).days) == "" <==> seconds < SECONDS_PER_DAY
  {
  }

  /** The prefix comes first and the clock last, whatever the days segment is. */
  lemma ProgressLineLayout(head: string, clock: string)
    requires |clock| == 8
    ensures |PREFIX + head + clock| >= |PREFIX| + 8
    ensures (PREFIX + head + clock)[..|PREFIX|] == PREFIX
    ensures (PREFIX + head + clock)[|PREFIX + head + clock| - 8..] == clock
    ensures |PREFIX + head + clock| == |PREFIX| + 8 <==> head == ""
  {
    var s := PREFIX + head + clock;
    assert s == PREFIX + (head + clock);
  }

  /** The number of days named by the days segment; None when it is not of that form. */
  function ParseDays(head: string): Option<nat> {
    if head == "" then Some(0)
    else if |head| > 6 && head[|head| - 6..] == " days " && AllDigits(head[..|head| - 6]) then
      Some(ParseDecimal(head[..|head| - 6]))
    else None
  }

  /** Reads an "estimated remaining" text back into the clock it shows; None when it is not of that form. */
  function ParseEta(s: string): Option<Clock> {
    if |s| < |PREFIX| + 8 || s[..|PREFIX|] != PREFIX then None
    else
      var body := s[|PREFIX|..];
      var head, clock := body[..|body| - 8], body[|body| - 8..];
      if !ClockShape(clock) then None
      else
        match ParseDays(head)
        case None => None
        case Some(days) =>
          Some(Clock(days, ParseDecimal(clock[0..2]), ParseDecimal(clock[3..5]), ParseDecimal(clock[6..8])))
  }

  /** The characters of `HH:MM:SS`: each field is a two-digit slice between the colons. */
  lemma ClockTextParts(c: Clock)
    requires Normal(c)
    ensures ClockShape(ClockText(c))
    ensures ClockText(c)[0..2] == Pad2(c.hours)
    ensures ClockText(c)[3..5] == Pad2(c.minutes)
    ensures ClockText(c)[6..8] == Pad2(c.seconds)
  {
    var hh, mm, ss := Pad2(c.hours), Pad2(c.minutes), Pad2(c.seconds);
    assert hh == [hh[0], hh[1]] && mm == [mm[0], mm[1]] && ss == [ss[0], ss[1]];
    assert ClockText(c) == [hh[0], hh[1], ':', mm[0], mm[1], ':', ss[0], ss[1]];
  }

  /** Each field of `HH:MM:SS` reads back as the field it was printed from. */
  lemma ClockTextInverse(c: Clock)
    requires Normal(c)
    ensures ClockShape(ClockText(c))
    ensures ParseDecimal(ClockText(c)[0..2]) == c.hours
    ensures ParseDecimal(ClockText(c)[3..5]) == c.minutes
    ensures ParseDecimal(ClockText(c)[6..8]) == c.seconds
  {
    ClockTextParts(c);
    Pad2Inverse(c.hours);
    Pad2Inverse(c.minutes);
    Pad2Inverse(c.seconds);
  }

  lemma DaysTextInverse(days: nat)
    ensures ParseDays(DaysText(days)) == Some(days)
  {
    if days > 0 {
      var head := DaysText(days);
      assert head[|head| - 6..] == " days ";
      assert head[..|head| - 6] == Decimal(days);
      ParseDecimalInverse(days);
    }
  }

  /** The text shows exactly the days, hours, minutes and seconds of the unique
      normal decomposition of its input. */
  lemma FormatTimeInverse(seconds: nat)
    ensures ParseEta(FormatTime(seconds)) == Some(Decompose(seconds))
  {
    var c := Decompose(seconds);
    var head, clock := DaysText(c.days), ClockText(c);
    ClockTextInverse(c);
    DaysTextInverse(c.days);
    ParseEtaParts(head, clock, c.days);
  }

  /** The parser splits a text into the prefix, the days segment and the last eight characters. */
  lemma ParseEtaParts(head: string, clock: string, days: nat)
    requires ClockShape(clock)
    requires ParseDays(head) == Some(days)
    ensures ParseEta(PREFIX + head + clock)
      == Some(Clock(days, ParseDecimal(clock[0..2]), ParseDecimal(clock[3..5]), ParseDecimal(clock[6..8])))
  {
    var s := PREFIX + head + clock;
    assert s == PREFIX + (head + clock);
    assert s[..|PREFIX|] == PREFIX;
    var body := s[|PREFIX|..];
    assert body == head + clock;
    assert body[..|body| - 8] == head;
    assert body[|body| - 8..] == clock;
  }

  /** Two different numbers of seconds never give the same text. */
  lemma FormatTimeInjective(a: nat, b: nat)
    requires FormatTime(a) == FormatTime(b)
    ensures a == b
  {
    FormatTimeInverse(a);
    FormatTimeInverse(b);
    assert TotalSeconds(Decompose(a)) == a && TotalSeconds(Decompose(b)) == b;
  }

  /** One hour, one minute and one second. */
  lemma FormatTimeOneHour()
    ensures FormatTime(3661) == "Estimated remaining: 01:01:01"
  {
    assert Decompose(3661) == Clock(0, 1, 1, 1);
    assert ClockText(Clock(0, 1, 1, 1)) == "01:01:01";
  }

  /** One day and one hour. */
  lemma FormatTimeOneDay()
    ensures FormatTime(90000) == "Estimated remaining: 1 days 01:00:00"
  {
    var head, clock := DaysText(1), ClockText(Clock(1, 1, 0, 0));
    assert head == "1 days ";
    assert clock == "01:00:00" by { assert Pad2(1) == "01" && Pad2(0) == "00"; }
    assert Decompose(90000) == Clock(1, 1, 0, 0);
    assert FormatTime(90000) == PREFIX + head + clock;
  }


}

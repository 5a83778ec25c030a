/** The timezone client: its configuration defaults and the GMT offset label.
    The HTTP lookup itself is an abstract function supplied by the caller. */
module TimezoneClient {
  import opened Results
  import opened Text
  import opened Calendar

  const DefaultBaseUrl: string := "https://timezone.abstractapi.com/v1"

  datatype Config = Config(apiKey: string, baseUrl: Option<string>)

  datatype Client = Client(apiKey: string, baseUrl: string)

  /** The constructor: an absent or empty base URL falls back to the default. */
  function NewClient(config: Config): (c: Client)
    ensures c.apiKey == config.apiKey
    ensures c.baseUrl != []
    ensures config.baseUrl.Some? && config.baseUrl.value != [] ==> c.baseUrl == config.baseUrl.value
    ensures config.baseUrl.None? || config.baseUrl.value == [] ==> c.baseUrl == DefaultBaseUrl
  {
    Client(config.apiKey, if config.baseUrl.Some? && config.baseUrl.value != [] then config.baseUrl.value else DefaultBaseUrl)
  }

  /** What a successful lookup provides: the contact's local moment, the zone
      abbreviation, and the GMT offset in whole minutes (`gmt_offset * 60`). */
  datatype TimezoneData = TimezoneData(moment: LocalMoment, abbreviation: string, gmtOffsetMinutes: int)

  /** The timezone lookup for a location string. */
  type Lookup = string -> Result<TimezoneData>

  function Abs(a: int): nat
  {
    if a < 0 then -a else a
  }

  /** JavaScript's `%`: the remainder takes the sign of the dividend. */
  function JsRemainder(a: int, b: int): (r: int)
    requires b > 0
    ensures Abs(r) == Abs(a) % b
    ensures a < 0 ==> r <= 0
    ensures a >= 0 ==> r >= 0
  {
    if a >= 0 then a % b else -((-a) % b)
  }

  /** `GMT`, a sign, and hours and minutes each padded to two digits. */
  function Label(sign: char, hours: nat, minutes: nat): (s: string)
    requires minutes < 100
    ensures |s| >= 9 && s[..3] == "GMT" && s[3] == sign && s[|s| - 3] == ':'
  {
    "GMT" + [sign] + PadStart(NatToString(hours), 2, '0') + ":" + PadStart(NatToString(minutes), 2, '0')
  }

  /** `getTimezoneOffset`: the sign of the offset, the whole hours of its
      absolute value and the remaining minutes. */
  function FormatOffset(offsetMinutes: int): (s: string)
    ensures |s| >= 9 && s[..3] == "GMT" && s[|s| - 3] == ':'
    ensures s[3] == (if offsetMinutes >= 0 then '+' else '-')
  {
    var hours := Abs(offsetMinutes) / 60;
    var minutes := Abs(JsRemainder(offsetMinutes, 60));
    Label(SignOf(offsetMinutes), hours, minutes)
  }

  /** The hours field of a label: between the sign and the colon. */
  function HoursField(s: string): string
    requires |s| >= 7
  {
    s[4..|s| - 3]
  }

  /** The minutes field of a label: after the colon. */
  function MinutesField(s: string): string
    requires |s| >= 2
  {
    s[|s| - 2..]
  }

  /** Slicing a label at its fixed positions recovers the two fields. */
  lemma FieldsOf(s: string, sign: char, hh: string, mm: string)
    requires |hh| >= 2 && |mm| == 2
    requires s == "GMT" + [sign] + hh + ":" + mm
    ensures HoursField(s) == hh && MinutesField(s) == mm
  {
    assert s[4..|s| - 3] == hh;
    assert s[|s| - 2..] == mm;
  }

  /** The fields of a label are the padded hours and minutes. */
  lemma LabelFields(sign: char, hours: nat, minutes: nat)
    requires minutes < 100
    ensures var s := Label(sign, hours, minutes);
            && |HoursField(s)| >= 2 && AllDigits(HoursField(s))
            && |HoursField(s)| == (if hours < 10 then 2 else |NatToString(hours)|)
            && ParseNat(HoursField(s)) == hours
            && (HoursField(s)[0] == '0' <==> hours < 10)
            && AllDigits(MinutesField(s))
            && ParseNat(MinutesField(s)) == minutes
  {
    var hh := PadStart(NatToString(hours), 2, '0');
    var mm := PadStart(NatToString(minutes), 2, '0');
    assert |mm| == 2;
    FieldsOf(Label(sign, hours, minutes), sign, hh, mm);
    ParseNatToString(hours);
    PadStartZeros(NatToString(hours), 2);
    ParseNatToString(minutes);
    PadStartZeros(NatToString(minutes), 2);
  }

  /** The hours field is the whole hours of the absolute offset, at least two
      digits long; the minutes field is the remaining minutes in two digits. */
  lemma OffsetFields(offsetMinutes: int)
    ensures var s := FormatOffset(offsetMinutes);
            && |HoursField(s)| >= 2 && AllDigits(HoursField(s))
            && |HoursField(s)| == (if Abs(offsetMinutes) / 60 < 10 then 2 else |NatToString(Abs(offsetMinutes) / 60)|)
            && ParseNat(HoursField(s)) == Abs(offsetMinutes) / 60
            && (HoursField(s)[0] == '0' <==> Abs(offsetMinutes) / 60 < 10)
            && AllDigits(MinutesField(s))
            && ParseNat(MinutesField(s)) == Abs(offsetMinutes) % 60
  {
    var sign := if offsetMinutes >= 0 then '+' else '-';
    LabelFields(sign, Abs(offsetMinutes) / 60, Abs(JsRemainder(offsetMinutes, 60)));
  }

  /** Reads a label back into minutes; the inverse of `FormatOffset`. */
  function ParseOffset(s: string): Option<int>
  {
    if |s| >= 9 && s[..3] == "GMT" && (s[3] == '+' || s[3] == '-') && s[|s| - 3] == ':'
       && AllDigits(HoursField(s)) && AllDigits(MinutesField(s))
    then
      var magnitude := ParseNat(HoursField(s)) * 60 + ParseNat(MinutesField(s));
      Some(if s[3] == '+' then magnitude else -magnitude)
    else None
  }

  /** A well-formed label reads back as its sign applied to hours * 60 + minutes. */
  lemma ParseWellFormed(s: string, sign: char, hours: nat, minutes: nat)
    requires |s| >= 9 && s[..3] == "GMT" && s[3] == sign && s[|s| - 3] == ':'
    requires sign == '+' || sign == '-'
    requires AllDigits(HoursField(s)) && AllDigits(MinutesField(s))
    requires ParseNat(HoursField(s)) == hours && ParseNat(MinutesField(s)) == minutes
    ensures ParseOffset(s) == Some(if sign == '+' then hours * 60 + minutes else -(hours * 60 + minutes))
  {
  }

  /** A label reads back as its sign applied to hours * 60 + minutes. */
  lemma ParseLabel(sign: char, hours: nat, minutes: nat)
    requires sign == '+' || sign == '-'
    requires minutes < 60
    ensures ParseOffset(Label(sign, hours, minutes)) ==
            Some(if sign == '+' then hours * 60 + minutes else -(hours * 60 + minutes))
  {
    LabelFields(sign, hours, minutes);
    ParseWellFormed(Label(sign, hours, minutes), sign, hours, minutes);
  }

  /** The sign character of an offset; zero counts as `+`. */
  function SignOf(offsetMinutes: int): char
  {
    if offsetMinutes >= 0 then '+' else '-'
  }

  lemma FormatOffsetIsLabel(offsetMinutes: int)
    ensures FormatOffset(offsetMinutes) == Label(SignOf(offsetMinutes), Abs(offsetMinutes) / 60, Abs(offsetMinutes) % 60)
  {
  }

  lemma WholeHoursAndMinutes(a: nat)
    ensures (a / 60) * 60 + a % 60 == a
  {
  }

  /** Reading back a signed magnitude that splits `Abs(m)` gives `m`. */
  lemma SignedMagnitude(s: string, m: int, hours: nat, minutes: nat)
    requires hours * 60 + minutes == Abs(m)
    requires ParseOffset(s) == Some(if SignOf(m) == '+' then hours * 60 + minutes else -(hours * 60 + minutes))
    ensures ParseOffset(s) == Some(m)
  {
  }

  /** Every label reads back as the offset it was made from. */
  lemma ParseFormatOffset(offsetMinutes: int)
    ensures ParseOffset(FormatOffset(offsetMinutes)) == Some(offsetMinutes)
  {
    var a := Abs(offsetMinutes);
    var hours, minutes := a / 60, a % 60;
    WholeHoursAndMinutes(a);
    FormatOffsetIsLabel(offsetMinutes);
    ParseLabel(SignOf(offsetMinutes), hours, minutes);
    SignedMagnitude(FormatOffset(offsetMinutes), offsetMinutes, hours, minutes);
  }

  /** Five whole hours, padded. */
  lemma PaddedFive()
    ensures PadStart(NatToString(5), 2, '0') == "05"
  {
    assert NatToString(5) == [DigitChar(5)] == "5";
  }

  /** Thirty minutes, padded. */
  lemma PaddedThirty()
    ensures PadStart(NatToString(30), 2, '0') == "30"
  {
    assert NatToString(3) == [DigitChar(3)] == "3";
    assert NatToString(30) == "3" + [DigitChar(0)] == "30";
  }

  /** Zero, padded. */
  lemma PaddedZero()
    ensures PadStart(NatToString(0), 2, '0') == "00"
  {
    assert NatToString(0) == [DigitChar(0)] == "0";
  }

  /** A half-hour offset east of GMT. */
  lemma OffsetExampleEast()
    ensures FormatOffset(330) == "GMT+05:30"
  {
    assert Abs(330) / 60 == 5 && Abs(330) % 60 == 30;
    FormatOffsetIsLabel(330);
    PaddedFive();
    PaddedThirty();
  }

  /** A half-hour offset west of GMT gives the same digits. */
  lemma OffsetExampleWest()
    ensures FormatOffset(-330) == "GMT-05:30"
  {
    assert Abs(-330) / 60 == 5 && Abs(-330) % 60 == 30;
    FormatOffsetIsLabel(-330);
    PaddedFive();
    PaddedThirty();
  }

  /** A zero offset counts as `+`. */
  lemma OffsetExampleZero()
    ensures FormatOffset(0) == "GMT+00:00"
  {
    assert Abs(0) / 60 == 0 && Abs(0) % 60 == 0 && SignOf(0) == '+';
    FormatOffsetIsLabel(0);
    PaddedZero();
  }
}

/** The filename grammar of the recordings and the capture identity derived
    from it: head flag, serial number and start date.  The pattern is
    searched, not anchored, and only its leftmost occurrence is used. */
module FilenameParser {
  import opened Errors
  import opened Bytes
  import opened Timestamps

  /** Every match of the pattern is exactly this many characters long. */
  const MATCH_LENGTH := 30

  /** The eight capture groups of the pattern, in order. */
  datatype FilenameParts = FilenameParts(device: char, mode: char, track: char, head: char,
                                         date: string, time: string, serial: string,
                                         direction: char)

  /** `([APT])([GMD_])([T_])([S_])-(\d{6})-(\d{6})-(\d{6})([FR])\.MP4`
      matches `s` starting at position `i`. */
  predicate MatchesAt(s: string, i: nat) {
    && i + MATCH_LENGTH <= |s|
    && s[i] in "APT" && s[i + 1] in "GMD_" && s[i + 2] in "T_" && s[i + 3] in "S_"
    && s[i + 4] == '-' && AllDigits(s[i + 5..i + 11])
    && s[i + 11] == '-' && AllDigits(s[i + 12..i + 18])
    && s[i + 18] == '-' && AllDigits(s[i + 19..i + 25])
    && s[i + 25] in "FR" && s[i + 26..i + 30] == ".MP4"
  }

  /** The leftmost match at or after `from`: what `findall(...)[0]` picks. */
  function FirstMatch(s: string, from: nat): (r: Option<nat>)
    ensures r.Some? ==> from <= r.value && MatchesAt(s, r.value)
    ensures r.Some? ==> forall j :: from <= j < r.value ==> !MatchesAt(s, j)
    ensures r.None? ==> forall j :: from <= j ==> !MatchesAt(s, j)
    decreases |s| - from
  {
    if from + MATCH_LENGTH > |s| then None
    else if MatchesAt(s, from) then Some(from)
    else FirstMatch(s, from + 1)
  }

  /** The shape every parsed name has: three six-digit tokens. */
  predicate WellFormed(p: FilenameParts) {
    |p.date| == 6 && AllDigits(p.date) && |p.time| == 6 && AllDigits(p.time)
    && |p.serial| == 6 && AllDigits(p.serial) && p.head in "S_"
  }

  function PartsAt(s: string, i: nat): (p: FilenameParts)
    requires MatchesAt(s, i)
    ensures WellFormed(p)
  {
    FilenameParts(s[i], s[i + 1], s[i + 2], s[i + 3], s[i + 5..i + 11], s[i + 12..i + 18],
                  s[i + 19..i + 25], s[i + 25])
  }

  /** `getFilenameParsed`: the groups of the leftmost match, or IndexError. */
  function GetFilenameParsed(name: string): (r: Result<FilenameParts>)
    ensures r.Ok? <==> exists i: nat :: MatchesAt(name, i)
    ensures r.Ok? ==> exists i: nat :: MatchesAt(name, i) && r.value == PartsAt(name, i)
                                  && forall j :: 0 <= j < i ==> !MatchesAt(name, j)
    ensures r.Err? ==> r.error == IndexError
  {
    match FirstMatch(name, 0)
    case None => Err(IndexError)
    case Some(i) => Ok(PartsAt(name, i))
  }

  /** `isHead`: the fourth group is `S`. */
  function IsHead(name: string): Result<bool> {
    match GetFilenameParsed(name)
    case Err(e) => Err(e)
    case Ok(p) => Ok(p.head == 'S')
  }

  /** `getFilenameSerial`: `int()` of the third digit group. */
  function GetFilenameSerial(name: string): Result<nat> {
    match GetFilenameParsed(name)
    case Err(e) => Err(e)
    case Ok(p) => Ok(DecimalValue(p.serial))
  }

  /** The twelve digits `"".join(groups[4:6])` handed to strptime. */
  function StampText(p: FilenameParts): (s: string)
    requires WellFormed(p)
    ensures |s| == 12 && AllDigits(s) && s[0..6] == p.date && s[6..12] == p.time
  {
    p.date + p.time
  }

  /** `getStartDate`: `datetime.strptime` of the date and time groups with
      `%y%m%d%H%M%S`, which raises ValueError on a field outside the
      calendar. */
  function GetStartDate(name: string): (r: Result<DateTime>)
    ensures r.Err? ==> r.error == IndexError || r.error == ValueError
    ensures r.Ok? ==> ValidDateTime(r.value)
  {
    match GetFilenameParsed(name)
    case Err(e) => Err(e)
    case Ok(p) =>
      match ParseCompact(StampText(p))
      case None => Err(ValueError)
      case Some(d) => Ok(d)
  }

  /** `getStartDateFormat`: the start date written as `%Y%m%d-%H%M%S`. */
  function GetStartDateFormat(name: string): (r: Result<string>)
    ensures r.Err? ==> r.error == IndexError || r.error == ValueError
  {
    match GetStartDate(name)
    case Err(e) => Err(e)
    case Ok(d) => Ok(FormatCompact(d))
  }

  /** `getFilenameFormat`: `"<start date>-<serial>"`. */
  function GetFilenameFormat(name: string): Result<string> {
    match GetStartDateFormat(name)
    case Err(e) => Err(e)
    case Ok(date) => Ok(date + "-" + IntToString(GetFilenameSerial(name).value))
  }

  /** The leftmost match decides the parse. */
  lemma LeftmostMatch(name: string, i: nat)
    requires MatchesAt(name, i) && forall j :: 0 <= j < i ==> !MatchesAt(name, j)
    ensures GetFilenameParsed(name) == Ok(PartsAt(name, i))
  {
  }

  /** The century `%Y` puts in front of a `%y` date token. */
  function Century(date: string): string
    requires |date| == 6 && AllDigits(date)
  {
    if DecimalValue(date[0..2]) < 69 then "20" else "19"
  }

  /** Everything derived from a name comes from its leftmost match at `i`:
      the head flag is the fourth group, the serial is the value of the
      third digit group, the start date is the two-digit fields of the date
      and time tokens when they form a valid date and time (ValueError
      otherwise), and the formatted identity is then those tokens with a
      century inserted, followed by the serial without leading zeros. */
  lemma DerivedFromLeftmostMatch(name: string, i: nat)
    requires MatchesAt(name, i) && forall j :: 0 <= j < i ==> !MatchesAt(name, j)
    ensures var p := PartsAt(name, i);
            && p.head == name[i + 3]
            && IsHead(name) == Ok(p.head == 'S')
            && GetFilenameSerial(name) == Ok(DecimalValue(p.serial))
            && DecimalValue(p.serial) < 1000000
            && var d := FieldsOf(StampText(p), 0);
               && GetStartDate(name) == (if ValidDateTime(d) then Ok(d) else Err(ValueError))
               && GetFilenameFormat(name)
                  == if ValidDateTime(d)
                     then Ok(Century(p.date) + p.date + "-" + p.time + "-" + NatToString(DecimalValue(p.serial)))
                     else Err(ValueError)
  {
    LeftmostMatch(name, i);
    var p := PartsAt(name, i);
    var stamp := StampText(p);
    CompactIsPositional(stamp);
    assert stamp[0..2] == p.date[0..2];
    FormatOfParsed(stamp);
    DecimalValueBound(p.serial);
  }

  /** A name without any match raises for every derived field. */
  lemma NoMatchRaises(name: string)
    requires forall i: nat :: !MatchesAt(name, i)
    ensures GetFilenameParsed(name) == Err(IndexError)
    ensures IsHead(name) == Err(IndexError) && GetFilenameSerial(name) == Err(IndexError)
    ensures GetStartDate(name) == Err(IndexError) && GetFilenameFormat(name) == Err(IndexError)
  {
  }

  /** The serial at the end of the formatted identity reads back as the serial. */
  lemma FilenameFormatSerial(name: string, f: string, serial: nat)
    requires GetFilenameFormat(name) == Ok(f) && GetFilenameSerial(name) == Ok(serial)
    ensures |f| > 16 && f[15] == '-' && AllDigits(f[16..]) && DecimalValue(f[16..]) == serial
  {
    var i := FirstMatch(name, 0).value;
    DerivedFromLeftmostMatch(name, i);
    NatToStringRoundTrip(serial);
    var p := PartsAt(name, i);
    var head := Century(p.date) + p.date + "-" + p.time + "-";
    assert f == head + NatToString(serial);
    assert |head| == 16;
    assert f[16..] == NatToString(serial);
  }
}

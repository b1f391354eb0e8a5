/** The WHOIS part of `CheckDomainDetails`: find the expiry line in the raw
    response, cut the date out of it, parse it (the general parser first,
    then the strict "yyyy-MM-ddTHH" pattern) and compare it with now. */
module Expiry {
  import opened Wrappers
  import opened Text
  import opened Calendar

  const EXPIRY_LABEL: string := "Expiry Date"
  const EXPIRATION_LABEL: string := "Expiration Date"
  const REGISTRY_EXPIRY_LABEL: string := "Registry Expiry Date"

  /** A line that holds one of the three labels (case-sensitive). */
  predicate IsExpiryLine(line: string) {
    Contains(line, EXPIRY_LABEL) || Contains(line, EXPIRATION_LABEL) || Contains(line, REGISTRY_EXPIRY_LABEL)
  }

  /** "Registry Expiry Date" holds "Expiry Date", so the third label never
      matches a line the first one misses. */
  lemma {:induction false} RegistryLabelRedundant(line: string)
    ensures IsExpiryLine(line) <==> Contains(line, EXPIRY_LABEL) || Contains(line, EXPIRATION_LABEL)
  {
    if Contains(line, REGISTRY_EXPIRY_LABEL) {
      assert REGISTRY_EXPIRY_LABEL == "Registry " + EXPIRY_LABEL;
      ContainsSuffixOf(line, "Registry ", EXPIRY_LABEL);
    }
  }

  // ---------------------------------------------------------------------------
  // Field extraction and the first-match scan
  // ---------------------------------------------------------------------------

  /** What the scan leaves behind: `expiryDateString` still null, the
      IndexOutOfRangeException of `Split(':')[1]`, or the trimmed text. */
  datatype Field = NoExpiryLine | MissingColon | Candidate(text: string)

  /** `line.Split(':')[1].Trim()`, for a line that has matched. */
  function LineField(line: string): (f: Field)
    ensures f != NoExpiryLine
    ensures f == MissingColon <==> ':' !in line
  {
    var pieces := SplitOn(line, ':');
    SplitOnLength(line, ':');
    if |pieces| < 2 then MissingColon else Candidate(Trim(pieces[1]))
  }

  /** The candidate is the trimmed text strictly between the first and the
      second colon, or up to the end of the line when there is one colon. */
  lemma {:induction false} LineFieldBetweenColons(line: string, i: nat, j: nat)
    requires i == IndexOf(line, ':', 0) < |line|
    requires j == IndexOf(line, ':', i + 1)
    ensures LineField(line) == Candidate(Trim(line[i + 1..j]))
  {
    assert line[i] == ':';
    SplitOnSecond(line, ':');
    var pieces := SplitOn(line, ':');
    assert |pieces| >= 2 && pieces[1] == line[i + 1..j];
  }

  /** The index of the first expiry line, or `|lines|` when there is none. */
  function FirstExpiryIndex(lines: seq<string>): (k: nat)
    ensures k <= |lines|
    ensures forall j :: 0 <= j < k ==> !IsExpiryLine(lines[j])
    ensures k < |lines| ==> IsExpiryLine(lines[k])
  {
    if lines == [] then 0
    else if IsExpiryLine(lines[0]) then 0
    else 1 + FirstExpiryIndex(lines[1..])
  }

  /** The contract of FirstExpiryIndex determines its value. */
  lemma {:induction false} FirstExpiryIndexUnique(lines: seq<string>, k: nat)
    requires k <= |lines|
    requires forall j :: 0 <= j < k ==> !IsExpiryLine(lines[j])
    requires k < |lines| ==> IsExpiryLine(lines[k])
    ensures FirstExpiryIndex(lines) == k
  {
  }

  /** The specification of the `foreach` scan: the field of the first expiry line. */
  function FirstExpiryField(lines: seq<string>): (f: Field)
  {
    var k := FirstExpiryIndex(lines);
    if k == |lines| then NoExpiryLine else LineField(lines[k])
  }

  /** The `foreach` over the lines that assigns `expiryDateString` at the
      first expiry line and breaks. */
  method ScanForExpiry(lines: seq<string>) returns (f: Field)
    ensures f == FirstExpiryField(lines)
  {
    f := NoExpiryLine;
    var i := 0;
    while i < |lines|
      invariant 0 <= i <= |lines|
      invariant forall j :: 0 <= j < i ==> !IsExpiryLine(lines[j])
    {
      var line := lines[i];
      if IsExpiryLine(line) {
        var pieces := SplitOn(line, ':');
        if |pieces| < 2 {
          f := MissingColon;
        } else {
          f := Candidate(Trim(pieces[1]));
        }
        break;
      }
      i := i + 1;
    }
    FirstExpiryIndexUnique(lines, i);
  }

  /** No expiry line, no field. */
  lemma {:induction false} NoExpiryLineIff(lines: seq<string>)
    ensures FirstExpiryField(lines) == NoExpiryLine <==> forall j :: 0 <= j < |lines| ==> !IsExpiryLine(lines[j])
  {
  }

  /** The earliest expiry line decides the field. */
  lemma {:induction false} FirstMatchWins(lines: seq<string>, k: nat)
    requires k < |lines| && IsExpiryLine(lines[k])
    requires forall j :: 0 <= j < k ==> !IsExpiryLine(lines[j])
    ensures FirstExpiryField(lines) == LineField(lines[k])
  {
    FirstExpiryIndexUnique(lines, k);
  }

  /** Once an expiry line has been seen, later lines change nothing. */
  lemma {:induction false} LaterLinesIgnored(lines: seq<string>, later: seq<string>)
    requires exists j :: 0 <= j < |lines| && IsExpiryLine(lines[j])
    ensures FirstExpiryField(lines + later) == FirstExpiryField(lines)
  {
    var k := FirstExpiryIndex(lines);
    assert (lines + later)[k] == lines[k];
    forall j | 0 <= j < k ensures !IsExpiryLine((lines + later)[j]) {
      assert (lines + later)[j] == lines[j];
    }
    FirstExpiryIndexUnique(lines + later, k);
  }

  // ---------------------------------------------------------------------------
  // Parsing and the verdict
  // ---------------------------------------------------------------------------

  /** Which parser produced the date. */
  datatype ParseMethod = StandardParse | FallbackParse

  /** The exceptions the two `catch` blocks report. */
  datatype Failure =
    | SoaQueryFailed    // LookupClient.QueryAsync threw (outer catch)
    | WhoisQueryFailed  // WhoisClient.Query threw (inner catch)
    | IndexOutOfRange   // an expiry line without ':' (inner catch)
    | FormatError       // ParseExact rejected the candidate (inner catch)

  /** What `CheckDomainDetails` reports about the expiry date. */
  datatype Report =
    | Verdict(parser: ParseMethod, expiry: DateTime, expired: bool)
    | NoExpiryInfo
    | Failed(failure: Failure)

  /** `DateTime.TryParse` is an oracle; when it fails, the strict
      "yyyy-MM-ddTHH" parse decides, and the date is compared with `now`. */
  function ParseCandidate(candidate: string, tryParse: string -> Option<DateTime>, now: DateTime): (r: Report)
    ensures r.Verdict? || r == Failed(FormatError)
    ensures r.Verdict? ==> (r.expired <==> r.expiry.ticks < now.ticks)
    ensures r.Verdict? && r.parser == StandardParse <==> tryParse(candidate).Some?
    ensures r.Verdict? && r.parser == StandardParse ==> r.expiry == tryParse(candidate).value
    ensures r.Verdict? && r.parser == FallbackParse ==>
      exists st :: ValidStamp(st) && Format(st) == candidate && r.expiry == ToDateTime(st)
    ensures r == Failed(FormatError) <==>
      tryParse(candidate).None? && forall st :: ValidStamp(st) ==> Format(st) != candidate
  {
    ParseExactFails(candidate);
    match tryParse(candidate)
    case Some(d) => Verdict(StandardParse, d, IsExpired(d, now))
    case None =>
      match ParseExact(candidate)
      case Some(st) => Verdict(FallbackParse, ToDateTime(st), IsExpired(ToDateTime(st), now))
      case None => Failed(FormatError)
  }

  /** The report of one pass through the inner `try`, once the WHOIS server
      answered with `raw`. */
  function AttemptReport(raw: string, tryParse: string -> Option<DateTime>, now: DateTime): (r: Report)
  {
    match FirstExpiryField(SplitLines(raw))
    case NoExpiryLine => NoExpiryInfo
    case MissingColon => Failed(IndexOutOfRange)
    case Candidate(c) => if c == [] then NoExpiryInfo else ParseCandidate(c, tryParse, now)
  }

  /** The whole of `CheckDomainDetails` as a value: the SOA query outcome,
      the WHOIS answer (`None` when the query threw), the parser oracle and
      the current instant. */
  function DetailsReport(soaQueryOk: bool, whois: Option<string>,
                         tryParse: string -> Option<DateTime>, now: DateTime): (r: Report)
  {
    if !soaQueryOk then Failed(SoaQueryFailed)
    else if whois.None? then Failed(WhoisQueryFailed)
    else AttemptReport(whois.value, tryParse, now)
  }

  /** `CheckDomainDetails` after the SOA query: the `while (!success)` loop,
      whose body sets `success` on both the normal and the exception path.
      `attempts` counts the WHOIS queries made. */
  method CheckDomainDetails(soaQueryOk: bool, whois: Option<string>,
                            tryParse: string -> Option<DateTime>, now: DateTime)
    returns (report: Report, attempts: nat)
    ensures report == DetailsReport(soaQueryOk, whois, tryParse, now)
    ensures attempts == if soaQueryOk then 1 else 0
  {
    if !soaQueryOk {
      return Failed(SoaQueryFailed), 0;
    }
    var success := false;
    attempts := 0;
    report := NoExpiryInfo;
    while !success
      invariant attempts == if success then 1 else 0
      invariant success ==> report == DetailsReport(soaQueryOk, whois, tryParse, now)
      decreases if success then 0 else 1
    {
      attempts := attempts + 1;
      if whois.None? {
        report := Failed(WhoisQueryFailed);
      } else {
        var lines := SplitLines(whois.value);
        var field := ScanForExpiry(lines);
        match field {
          case NoExpiryLine => report := NoExpiryInfo;
          case MissingColon => report := Failed(IndexOutOfRange);
          case Candidate(c) =>
            if c == [] {
              report := NoExpiryInfo;
            } else {
              report := ParseCandidate(c, tryParse, now);
            }
        }
      }
      success := true;
    }
  }

  // ---------------------------------------------------------------------------
  // Properties of the report
  // ---------------------------------------------------------------------------

  /** A matched line yields an empty candidate exactly when it has a colon
      and only white space between its first and second colon. */
  lemma {:induction false} EmptyCandidateIff(line: string)
    ensures LineField(line) == Candidate([]) <==>
      var i := IndexOf(line, ':', 0);
      && i < |line|
      && forall j :: i + 1 <= j < IndexOf(line, ':', i + 1) ==> IsWhiteSpace(line[j])
  {
    var i := IndexOf(line, ':', 0);
    if i < |line| {
      var j := IndexOf(line, ':', i + 1);
      var f := LineField(line);
      var middle := line[i + 1..j];
      LineFieldBetweenColons(line, i, j);
      assert f == Candidate(Trim(middle));
      TrimSliceEmpty(line, i + 1, j);
      assert Trim(middle) == [] <==> forall m :: i + 1 <= m < j ==> IsWhiteSpace(line[m]);
    } else {
      assert ':' !in line;
      assert LineField(line) == MissingColon;
    }
  }

  /** One pass reports "no expiry info" exactly when the scan found no
      expiry line or an empty candidate. */
  lemma {:induction false} AttemptNoExpiryInfo(raw: string, tryParse: string -> Option<DateTime>, now: DateTime)
    ensures AttemptReport(raw, tryParse, now) == NoExpiryInfo <==>
      FirstExpiryField(SplitLines(raw)) == NoExpiryLine || FirstExpiryField(SplitLines(raw)) == Candidate([])
  {
    var f := FirstExpiryField(SplitLines(raw));
    if f.Candidate? && f.text != [] {
      var r := ParseCandidate(f.text, tryParse, now);
      assert r.Verdict? || r == Failed(FormatError);
    }
  }

  /** "No expiry info" exactly when no line of the answer carries a label, or
      the first such line has only white space between its first and second colon. */
  lemma {:induction false} NoExpiryInfoIff(soaQueryOk: bool, whois: Option<string>,
                        tryParse: string -> Option<DateTime>, now: DateTime)
    ensures DetailsReport(soaQueryOk, whois, tryParse, now) == NoExpiryInfo <==>
      && soaQueryOk && whois.Some?
      && var lines := SplitLines(whois.value);
         var k := FirstExpiryIndex(lines);
         || k == |lines|
         || (var line := lines[k];
             var i := IndexOf(line, ':', 0);
             && i < |line|
             && forall j :: i + 1 <= j < IndexOf(line, ':', i + 1) ==> IsWhiteSpace(line[j]))
  {
    if soaQueryOk && whois.Some? {
      var lines := SplitLines(whois.value);
      var k := FirstExpiryIndex(lines);
      AttemptNoExpiryInfo(whois.value, tryParse, now);
      assert DetailsReport(soaQueryOk, whois, tryParse, now) == AttemptReport(whois.value, tryParse, now);
      if k < |lines| {
        assert FirstExpiryField(lines) == LineField(lines[k]);
        assert LineField(lines[k]) != NoExpiryLine;
        EmptyCandidateIff(lines[k]);
      }
    }
  }

  /** The index error is raised exactly when the first expiry line has no colon. */
  lemma {:induction false} IndexOutOfRangeIff(soaQueryOk: bool, whois: Option<string>,
                           tryParse: string -> Option<DateTime>, now: DateTime)
    ensures DetailsReport(soaQueryOk, whois, tryParse, now) == Failed(IndexOutOfRange) <==>
      && soaQueryOk && whois.Some?
      && var lines := SplitLines(whois.value);
         var k := FirstExpiryIndex(lines);
         k < |lines| && ':' !in lines[k]
  {
  }

  /** A verdict is "expired" exactly when the date is strictly before now;
      the same instant is not expired. */
  lemma {:induction false} VerdictIsStrict(soaQueryOk: bool, whois: Option<string>,
                        tryParse: string -> Option<DateTime>, now: DateTime)
    ensures var r := DetailsReport(soaQueryOk, whois, tryParse, now);
            r.Verdict? ==> (r.expired <==> r.expiry.ticks < now.ticks) && (r.expiry == now ==> !r.expired)
  {
  }

  /** The fallback verdict is given only for a candidate the general parser
      rejected and that is the exact pattern text of the date reported. */
  lemma {:induction false} FallbackMeansExactPattern(raw: string, tryParse: string -> Option<DateTime>, now: DateTime)
    requires AttemptReport(raw, tryParse, now).Verdict?
    requires AttemptReport(raw, tryParse, now).parser == FallbackParse
    ensures var f := FirstExpiryField(SplitLines(raw));
            && f.Candidate?
            && tryParse(f.text).None?
            && exists st :: ValidStamp(st) && Format(st) == f.text
                            && AttemptReport(raw, tryParse, now).expiry == ToDateTime(st)
  {
  }

  /** The standard verdict is given exactly for a candidate the general parser
      accepted, and it carries the date that parser returned. */
  lemma {:induction false} StandardMeansTryParsed(raw: string, tryParse: string -> Option<DateTime>, now: DateTime)
    ensures var r := AttemptReport(raw, tryParse, now);
            var f := FirstExpiryField(SplitLines(raw));
            r.Verdict? && r.parser == StandardParse <==>
              f.Candidate? && f.text != [] && tryParse(f.text).Some?
    ensures var r := AttemptReport(raw, tryParse, now);
            var f := FirstExpiryField(SplitLines(raw));
            r.Verdict? && r.parser == StandardParse ==>
              r.expiry == tryParse(f.text).value && (r.expired <==> r.expiry.ticks < now.ticks)
  {
    var f := FirstExpiryField(SplitLines(raw));
    if f.Candidate? && f.text != [] {
      var r := ParseCandidate(f.text, tryParse, now);
      assert AttemptReport(raw, tryParse, now) == r;
    }
  }

  /** A labelled line "<key>:<middle>" optionally followed by ":...":
      the candidate is the trimmed middle, whatever follows its colon. */
  lemma {:induction false} FieldOfLabelledLine(key: string, middle: string, tail: string)
    requires ':' !in key && ':' !in middle
    requires tail == [] || tail[0] == ':'
    ensures LineField(key + [':'] + middle + tail) == Candidate(Trim(middle))
  {
    var line := key + [':'] + middle + tail;
    var i, j := |key|, |key| + 1 + |middle|;
    assert forall m :: 0 <= m < i ==> line[m] == key[m];
    IndexOfUnique(line, ':', 0, i);
    assert forall m :: i + 1 <= m < j ==> line[m] == middle[m - (i + 1)];
    IndexOfUnique(line, ':', i + 1, j);
    LineFieldBetweenColons(line, i, j);
    assert line[i + 1..j] == middle;
  }

  /** The white space after the colon does not reach the date. */
  lemma {:induction false} TrimPaddedDate(pad: string, st: Stamp)
    requires ValidStamp(st)
    requires forall m :: 0 <= m < |pad| ==> IsWhiteSpace(pad[m])
    ensures Trim(pad + Format(st)) == Format(st)
  {
    var date := Format(st);
    var s := pad + date;
    assert !IsWhiteSpace(date[0]) && !IsWhiteSpace(date[|date| - 1]);
    var t := TrimStart(s);
    var dropped := |s| - |t|;
    assert s[|pad|] == date[0];
    assert dropped == |pad|;
    assert t == date;
    var e := TrimEnd(date);
    assert |e| == |date|;
  }

  /** The pattern text holds no colon. */
  lemma {:induction false} FormatHasNoColon(st: Stamp)
    requires ValidStamp(st)
    ensures ':' !in Format(st)
  {
    var s := Format(st);
    assert forall m :: 0 <= m < |s| ==> IsDigit(s[m]) || s[m] == '-' || s[m] == 'T';
  }

  /** The registry label holds no colon, and a line that starts with it is an expiry line. */
  lemma {:induction false} RegistryLabelLine(line: string)
    requires |line| >= |REGISTRY_EXPIRY_LABEL| && line[..|REGISTRY_EXPIRY_LABEL|] == REGISTRY_EXPIRY_LABEL
    ensures ':' !in REGISTRY_EXPIRY_LABEL
    ensures IsExpiryLine(line)
  {
    assert OccursAt(line, REGISTRY_EXPIRY_LABEL, 0);
    assert forall m :: 0 <= m < |REGISTRY_EXPIRY_LABEL| ==> REGISTRY_EXPIRY_LABEL[m] != ':';
  }

  /** The usual registry line "Registry Expiry Date: yyyy-MM-ddTHH:mm:ssZ"
      is an expiry line, and the time's own colons cut it: the candidate is
      only "yyyy-MM-ddTHH" (for 2025-03-01T00:00:00Z, "2025-03-01T00"). */
  lemma {:induction false} RegistryLineCandidate(st: Stamp, rest: string)
    requires ValidStamp(st)
    ensures var line := REGISTRY_EXPIRY_LABEL + ": " + Format(st) + [':'] + rest;
            IsExpiryLine(line) && LineField(line) == Candidate(Format(st))
  {
    var date := Format(st);
    var padded := " " + date;
    var line := REGISTRY_EXPIRY_LABEL + ": " + date + [':'] + rest;
    RegistryLabelLine(REGISTRY_EXPIRY_LABEL);
    assert IsExpiryLine(line) by {
      assert line[..|REGISTRY_EXPIRY_LABEL|] == REGISTRY_EXPIRY_LABEL;
      RegistryLabelLine(line);
    }
    assert LineField(line) == Candidate(Trim(padded)) by {
      assert line == REGISTRY_EXPIRY_LABEL + [':'] + padded + ([':'] + rest);
      FormatHasNoColon(st);
      assert ':' !in padded;
      FieldOfLabelledLine(REGISTRY_EXPIRY_LABEL, padded, [':'] + rest);
    }
    TrimPaddedDate(" ", st);
  }

  /** When the general parser rejects the truncated date, the strict
      pattern reads it back as the hour it names, and the verdict compares
      that hour with now. */
  lemma {:induction false} RegistryLineReport(raw: string, st: Stamp, rest: string,
                           tryParse: string -> Option<DateTime>, now: DateTime)
    requires ValidStamp(st)
    requires var lines := SplitLines(raw);
             var k := FirstExpiryIndex(lines);
             k < |lines| && lines[k] == REGISTRY_EXPIRY_LABEL + ": " + Format(st) + [':'] + rest
    requires tryParse(Format(st)).None?
    ensures AttemptReport(raw, tryParse, now) ==
      Verdict(FallbackParse, ToDateTime(st), IsExpired(ToDateTime(st), now))
  {
    RegistryLineCandidate(st, rest);
    ParseFormat(st);
  }
}

/**
 * The current revision of the indexer's sequential logic: the partitioner, the
 * date normaliser, header parsing with parsed dates, reading one email file,
 * and the ingestion worker that turns one partition into one bulk payload.
 */
module Utils {

  import opened Wrappers
  import opened Strings
  import opened Models
  import opened Headers
  import Constants

  // ---------------------------------------------------------------------------
  // Partitioner

  function Min(a: int, b: int): int {
    if a <= b then a else b
  }

  /**
   * Boundary `i` when `number` items are cut into `parts` parts: each of the `i`
   * parts before it holds `number / parts` items, and the first `number % parts`
   * parts hold one more.
   */
  function Boundary(number: nat, parts: nat, i: nat): nat
    requires parts > 0
  {
    i * (number / parts) + Min(i, number % parts)
  }

  /**
   * The `initParts + 1` boundaries of `number` items cut into `initParts` parts:
   * part `i` is the half-open range from `response[i]` to `response[i + 1]`.
   */
  method RangeOfParts(number: nat, initParts: int) returns (response: seq<int>)
    requires initParts > 0
    ensures |response| == initParts + 1
    ensures forall i :: 0 <= i <= initParts ==> response[i] == Boundary(number, initParts, i)
    ensures response[0] == 0 && response[initParts] == number
    ensures forall i :: 0 <= i < initParts ==>
              response[i + 1] - response[i] == number / initParts + (if i < number % initParts then 1 else 0)
  {
    var equalDivision := new int[initParts];
    var part := number / initParts;
    var rem := number % initParts;

    var i := 0;
    while i < initParts
      invariant 0 <= i <= initParts
      invariant forall k :: 0 <= k < i ==> equalDivision[k] == part
    {
      equalDivision[i] := part;
      i := i + 1;
    }

    i := 0;
    while i < rem
      invariant 0 <= i <= rem
      invariant forall k :: 0 <= k < initParts ==> equalDivision[k] == part + (if k < i then 1 else 0)
    {
      equalDivision[i] := equalDivision[i] + 1;
      i := i + 1;
    }

    var result := new int[equalDivision.Length + 1];
    result[0] := 0;
    i := 1;
    while i < equalDivision.Length + 1
      invariant 1 <= i <= initParts + 1
      invariant forall k :: 0 <= k < initParts ==> equalDivision[k] == part + (if k < rem then 1 else 0)
      invariant forall k :: 0 <= k < i ==> result[k] == Boundary(number, initParts, k)
    {
      SegmentSize(number, initParts, i - 1);
      result[i] := result[i - 1] + equalDivision[i - 1];
      i := i + 1;
    }
    response := result[..];
    BoundariesShape(response, number, initParts);
  }

  /** A sequence of all the boundaries starts at 0, ends at `number` and steps by the part sizes. */
  lemma BoundariesShape(response: seq<int>, number: nat, parts: nat)
    requires parts > 0 && |response| == parts + 1
    requires forall i :: 0 <= i <= parts ==> response[i] == Boundary(number, parts, i)
    ensures response[0] == 0 && response[parts] == number
    ensures forall i :: 0 <= i < parts ==>
              response[i + 1] - response[i] == number / parts + (if i < number % parts then 1 else 0)
  {
    BoundaryEnds(number, parts);
    forall i | 0 <= i < parts {
      SegmentSize(number, parts, i);
    }
  }

  /** Part `i` holds `number / parts` items, plus one when it is among the first `number % parts`. */
  lemma SegmentSize(number: nat, parts: nat, i: nat)
    requires parts > 0 && i < parts
    ensures Boundary(number, parts, i + 1) - Boundary(number, parts, i)
            == number / parts + (if i < number % parts then 1 else 0)
  {
    assert (i + 1) * (number / parts) == i * (number / parts) + number / parts;
  }

  /** The boundaries start at 0 and end at `number`. */
  lemma BoundaryEnds(number: nat, parts: nat)
    requires parts > 0
    ensures Boundary(number, parts, 0) == 0
    ensures Boundary(number, parts, parts) == number
  {
  }

  /** The boundaries never decrease. */
  lemma {:induction false} BoundaryMonotone(number: nat, parts: nat, i: nat, j: nat)
    requires parts > 0 && i <= j <= parts
    ensures Boundary(number, parts, i) <= Boundary(number, parts, j)
  {
    if i < j {
      BoundaryMonotone(number, parts, i, j - 1);
      SegmentSize(number, parts, j - 1);
    }
  }

  /** Every item lies in some part ... */
  lemma BoundaryOwner(number: nat, parts: nat, k: nat) returns (i: nat)
    requires parts > 0 && k < number
    ensures i < parts && Boundary(number, parts, i) <= k < Boundary(number, parts, i + 1)
  {
    BoundaryEnds(number, parts);
    i := OwnerBelow(number, parts, k, parts);
  }

  lemma {:induction false} OwnerBelow(number: nat, parts: nat, k: nat, j: nat) returns (i: nat)
    requires 0 < j <= parts && k < Boundary(number, parts, j)
    ensures i < j && Boundary(number, parts, i) <= k < Boundary(number, parts, i + 1)
    decreases j
  {
    if Boundary(number, parts, j - 1) <= k {
      i := j - 1;
    } else {
      i := OwnerBelow(number, parts, k, j - 1);
    }
  }

  /** ... and in only one. */
  lemma BoundaryOwnerUnique(number: nat, parts: nat, k: nat, i: nat, j: nat)
    requires parts > 0 && i < parts && j < parts
    requires Boundary(number, parts, i) <= k < Boundary(number, parts, i + 1)
    requires Boundary(number, parts, j) <= k < Boundary(number, parts, j + 1)
    ensures i == j
  {
    if i < j {
      BoundaryMonotone(number, parts, i + 1, j);
    } else if j < i {
      BoundaryMonotone(number, parts, j + 1, i);
    }
  }

  // ---------------------------------------------------------------------------
  // Date normaliser

  /**
   * The parts of Go's `time` package that the normaliser uses: the zero time and
   * `time.Parse(layout, value)`, which either yields a time or fails.
   */
  datatype TimeLib<T> = TimeLib(zero: T, parse: (string, string) -> Option<T>)

  /** The three accepted layouts, in the order they are tried. */
  const Layouts: seq<string> := [
    "Mon, _2 Jan 2006 15:04:05 -0700 (MST)",
    "Monday, January 2, 2006",
    "Monday, March 12"
  ]

  /** A value exactly as long as this one is taken to lack its year. */
  const ShortDate: string := "Monday, March 12"

  /** The year appended to such a value. */
  const DefaultYear: string := ", 2000"

  /** The value the layouts are tried against. */
  function WithYear(date: string): string {
    if |date| == |ShortDate| then date + DefaultYear else date
  }

  /** The year is appended only to values of the short length, and at most once. */
  lemma WithYearOnce(date: string)
    ensures WithYear(date) != date <==> |date| == |ShortDate|
    ensures |WithYear(date)| != |ShortDate|
    ensures WithYear(WithYear(date)) == WithYear(date)
  {
  }

  /** The result of the first layout that parses `value`, or `None` when none does. */
  function FirstParse<T>(layouts: seq<string>, value: string, parse: (string, string) -> Option<T>): (r: Option<T>)
    ensures r.None? <==> forall i :: 0 <= i < |layouts| ==> parse(layouts[i], value).None?
  {
    if layouts == [] then None
    else if parse(layouts[0], value).Some? then parse(layouts[0], value)
    else
      var r := FirstParse(layouts[1..], value, parse);
      assert forall i :: 1 <= i < |layouts| ==> layouts[i] == layouts[1..][i - 1];
      r
  }

  /** The result is that of the first layout that succeeds. */
  lemma {:induction false} FirstParseFirst<T>(layouts: seq<string>, value: string, parse: (string, string) -> Option<T>, i: nat)
    requires i < |layouts| && parse(layouts[i], value).Some?
    requires forall j :: 0 <= j < i ==> parse(layouts[j], value).None?
    ensures FirstParse(layouts, value, parse) == parse(layouts[i], value)
    decreases i
  {
    if i > 0 {
      var tail := layouts[1..];
      assert tail[i - 1] == layouts[i];
      forall j | 0 <= j < i - 1
        ensures parse(tail[j], value).None?
      {
        assert tail[j] == layouts[j + 1];
      }
      FirstParseFirst(tail, value, parse, i - 1);
    }
  }

  /** The normalised date, or `None` when the run is stopped because no layout parses. */
  function NormalizeDate<T>(date: string, lib: TimeLib<T>): Option<T> {
    FirstParse(Layouts, WithYear(date), lib.parse)
  }

  /**
   * Tries the layouts in order and returns the first successful parse; `None`
   * stands for the process exit when none succeeds.  `tried` lists the values
   * handed to the parser: one per attempt, every one of them the same value,
   * with the year appended before the first attempt when it is appended at all.
   */
  method ParseDateWithFormats<T>(date: string, lib: TimeLib<T>) returns (r: Option<T>, ghost tried: seq<string>)
    ensures r == NormalizeDate(date, lib)
    ensures 1 <= |tried| <= |Layouts|
    ensures forall k :: 0 <= k < |tried| ==> tried[k] == WithYear(date)
    ensures r.None? ==> |tried| == |Layouts|
    ensures r.Some? ==> r == lib.parse(Layouts[|tried| - 1], WithYear(date))
  {
    var formats := Layouts;
    var value := date;
    tried := [];
    var i := 0;
    while i < |formats|
      invariant 0 <= i <= |formats| && formats == Layouts
      invariant value == if i == 0 then date else WithYear(date)
      invariant |tried| == i
      invariant forall k :: 0 <= k < i ==> tried[k] == WithYear(date)
      invariant forall j :: 0 <= j < i ==> lib.parse(formats[j], WithYear(date)).None?
    {
      if |value| == |ShortDate| {
        value := value + DefaultYear;
      }
      var parsed := lib.parse(formats[i], value);
      tried := tried + [value];
      if parsed.Some? {
        FirstParseFirst(Layouts, WithYear(date), lib.parse, i);
        return parsed, tried;
      }
      i := i + 1;
    }
    r := None;
  }

  // ---------------------------------------------------------------------------
  // Header parsing

  /**
   * One header line applied to a record: the new record, or `None` when the line
   * is a date that no layout parses (the run stops).
   */
  function HeaderStep<T>(line: string, e: Email<T>, lib: TimeLib<T>): Option<Email<T>> {
    match ParseHeaderLine(line)
    case None => Some(e)
    case Some((f, v)) =>
      if f == Date then
        match NormalizeDate(v, lib)
        case None => None
        case Some(t) => Some(e.(date := t))
      else Some(WithText(e, f, v))
  }

  /**
   * Sets the field a header line names.  A line without a colon or with an
   * unrecognised name leaves the record as it was; a recognised name replaces
   * its own field only; a date is normalised first.
   */
  method SetHeader<T>(line: string, email: Email<T>, lib: TimeLib<T>) returns (r: Option<Email<T>>)
    ensures r == HeaderStep(line, email, lib)
  {
    var parts := SplitFirst(line, ':');
    if parts.None? {
      return Some(email);
    }
    var header := TrimSpace(parts.value.0);
    var headerValue := TrimSpace(parts.value.1);
    match HeaderField(header)
    case None =>
      ParseUnrecognisedLine(line, parts.value.0, parts.value.1);
      r := Some(email);
    case Some(f) =>
      ParseRecognisedLine(line, parts.value.0, parts.value.1, f);
      if f == Date {
        ghost var tried;
        var parsed;
        parsed, tried := ParseDateWithFormats(headerValue, lib);
        r := if parsed.None? then None else Some(email.(date := parsed.value));
      } else {
        r := Some(WithText(email, f, headerValue));
      }
  }

  /** The header lines applied in file order, or `None` when one of them stops the run. */
  function ApplyHeaders<T>(lines: seq<string>, e: Email<T>, lib: TimeLib<T>): Option<Email<T>>
    decreases |lines|
  {
    if lines == [] then Some(e)
    else
      match ApplyHeaders(lines[..|lines| - 1], e, lib)
      case None => None
      case Some(e') => HeaderStep(lines[|lines| - 1], e', lib)
  }

  /** Applying one more line of a prefix takes one more step from where the prefix left off. */
  lemma ApplyHeadersPrefix<T>(lines: seq<string>, i: nat, e: Email<T>, lib: TimeLib<T>)
    requires i < |lines|
    ensures ApplyHeaders(lines[..i + 1], e, lib) ==
            match ApplyHeaders(lines[..i], e, lib)
            case None => None
            case Some(e') => HeaderStep(lines[i], e', lib)
  {
    assert lines[..i + 1] == lines[..i] + [lines[i]];
    ApplyHeadersSnoc(lines[..i], lines[i], e, lib);
  }

  /**
   * Applying two blocks of lines one after the other is applying their
   * concatenation: a run the first block stops stays stopped, and otherwise the
   * second block continues from the record the first left.
   */
  lemma {:induction false} ApplyHeadersAppend<T>(a: seq<string>, b: seq<string>, e: Email<T>, lib: TimeLib<T>)
    ensures ApplyHeaders(a + b, e, lib) ==
            match ApplyHeaders(a, e, lib)
            case None => None
            case Some(e') => ApplyHeaders(b, e', lib)
    decreases |b|
  {
    if b == [] {
      assert a + b == a;
    } else {
      var init, x := b[..|b| - 1], b[|b| - 1];
      assert b == init + [x];
      assert a + b == (a + init) + [x];
      ApplyHeadersAppend(a, init, e, lib);
      ApplyHeadersSnoc(a + init, x, e, lib);
      match ApplyHeaders(a, e, lib)
      case None =>
      case Some(e') =>
        ApplyHeadersSnoc(init, x, e', lib);
    }
  }

  /** One line appended to a block takes one more step from where the block left off. */
  lemma ApplyHeadersSnoc<T>(lines: seq<string>, x: string, e: Email<T>, lib: TimeLib<T>)
    ensures ApplyHeaders(lines + [x], e, lib) ==
            match ApplyHeaders(lines, e, lib)
            case None => None
            case Some(e') => HeaderStep(x, e', lib)
  {
    var s := lines + [x];
    assert s[..|s| - 1] == lines && s[|s| - 1] == x;
  }

  /** Once a prefix of the lines stops the run, all of them do. */
  lemma {:induction false} StopsAfter<T>(lines: seq<string>, n: nat, e: Email<T>, lib: TimeLib<T>)
    requires n < |lines| && ApplyHeaders(lines[..n + 1], e, lib).None?
    ensures ApplyHeaders(lines, e, lib).None?
    decreases |lines| - n
  {
    if n + 1 < |lines| {
      ApplyHeadersPrefix(lines, n + 1, e, lib);
      StopsAfter(lines, n + 1, e, lib);
    } else {
      assert lines[..n + 1] == lines;
    }
  }

  /** A `Date` line whose value no layout parses. */
  predicate BadDateLine<T>(line: string, lib: TimeLib<T>) {
    Assigns(line, Date) && NormalizeDate(AssignedValue(line), lib).None?
  }

  /** One step stops the run exactly on a bad date line. */
  lemma HeaderStepStops<T>(line: string, e: Email<T>, lib: TimeLib<T>)
    ensures HeaderStep(line, e, lib).None? <==> BadDateLine(line, lib)
  {
  }

  /** One step sets the string field its line names to the line's value ... */
  lemma HeaderStepSets<T>(line: string, e: Email<T>, lib: TimeLib<T>, f: Field)
    requires f != Date && Assigns(line, f)
    ensures HeaderStep(line, e, lib) == Some(WithText(e, f, AssignedValue(line)))
  {
  }

  /** ... keeps every string field its line does not name ... */
  lemma HeaderStepKeeps<T>(line: string, e: Email<T>, lib: TimeLib<T>, f: Field)
    requires f != Date && !Assigns(line, f) && HeaderStep(line, e, lib).Some?
    ensures Text(HeaderStep(line, e, lib).value, f) == Text(e, f)
  {
    match ParseHeaderLine(line)
    case None =>
    case Some((g, v)) =>
      if g == Date {
        var t := NormalizeDate(v, lib).value;
        assert HeaderStep(line, e, lib) == Some(e.(date := t));
        DateUpdateKeepsText(e, t, f);
      } else {
        assert HeaderStep(line, e, lib) == Some(WithText(e, g, v));
      }
  }

  /** ... sets the date from a `Date` line ... */
  lemma HeaderStepSetsDate<T>(line: string, e: Email<T>, lib: TimeLib<T>)
    requires Assigns(line, Date) && HeaderStep(line, e, lib).Some?
    ensures NormalizeDate(AssignedValue(line), lib).Some?
    ensures HeaderStep(line, e, lib) == Some(e.(date := NormalizeDate(AssignedValue(line), lib).value))
  {
  }

  /** ... and keeps the date on any other line. */
  lemma HeaderStepKeepsDate<T>(line: string, e: Email<T>, lib: TimeLib<T>)
    requires !Assigns(line, Date)
    ensures HeaderStep(line, e, lib).Some?
    ensures HeaderStep(line, e, lib).value.date == e.date
  {
  }

  /** Applying the header lines stops the run exactly when one of them is an unparseable date. */
  lemma ApplyHeadersStops<T>(lines: seq<string>, e: Email<T>, lib: TimeLib<T>)
    ensures ApplyHeaders(lines, e, lib).None? <==> exists i :: 0 <= i < |lines| && BadDateLine(lines[i], lib)
  {
    if ApplyHeaders(lines, e, lib).None? {
      var i := StoppedAt(lines, e, lib);
    }
    forall i | 0 <= i < |lines| && BadDateLine(lines[i], lib)
      ensures ApplyHeaders(lines, e, lib).None?
    {
      StopsAt(lines, e, lib, i);
    }
  }

  /** A run that stops does so on its first bad date line ... */
  lemma {:induction false} StoppedAt<T>(lines: seq<string>, e: Email<T>, lib: TimeLib<T>) returns (i: nat)
    requires ApplyHeaders(lines, e, lib).None?
    ensures i < |lines| && BadDateLine(lines[i], lib)
    ensures NoBadDateBefore(lines, i, lib)
  {
    var init, last := lines[..|lines| - 1], lines[|lines| - 1];
    match ApplyHeaders(init, e, lib)
    case None =>
      i := StoppedAt(init, e, lib);
      NoBadDateExtends(lines, i, lib);
    case Some(e') =>
      HeaderStepStops(last, e', lib);
      i := |lines| - 1;
      NoBadDateWhenApplied(init, e, lib);
      NoBadDateExtends(lines, i, lib);
  }

  /** None of the first `n` lines is a bad date line. */
  predicate NoBadDateBefore<T>(lines: seq<string>, n: nat, lib: TimeLib<T>) {
    forall j :: 0 <= j < n && j < |lines| ==> !BadDateLine(lines[j], lib)
  }

  /** What holds of the first `n` lines without the last holds of the first `n` lines with it. */
  lemma NoBadDateExtends<T>(lines: seq<string>, n: nat, lib: TimeLib<T>)
    requires 0 < |lines| && n < |lines| && NoBadDateBefore(lines[..|lines| - 1], n, lib)
    ensures NoBadDateBefore(lines, n, lib)
  {
    forall j | 0 <= j < n
      ensures lines[j] == lines[..|lines| - 1][j]
    {
    }
  }

  /** Lines that are applied without stopping hold no bad date line. */
  lemma NoBadDateWhenApplied<T>(lines: seq<string>, e: Email<T>, lib: TimeLib<T>)
    ensures ApplyHeaders(lines, e, lib).Some? ==> NoBadDateBefore(lines, |lines|, lib)
  {
    forall j | 0 <= j < |lines| && BadDateLine(lines[j], lib)
      ensures ApplyHeaders(lines, e, lib).None?
    {
      StopsAt(lines, e, lib, j);
    }
  }

  /** ... and any bad date line stops it. */
  lemma {:induction false} StopsAt<T>(lines: seq<string>, e: Email<T>, lib: TimeLib<T>, i: nat)
    requires i < |lines| && BadDateLine(lines[i], lib)
    ensures ApplyHeaders(lines, e, lib).None?
  {
    var init, last := lines[..|lines| - 1], lines[|lines| - 1];
    match ApplyHeaders(init, e, lib)
    case None =>
    case Some(e') =>
      if i < |lines| - 1 {
        assert init[i] == lines[i];
        StopsAt(init, e, lib, i);
      } else {
        HeaderStepStops(last, e', lib);
      }
  }

  /** The last line that names a string field decides its value ... */
  lemma {:induction false} ApplyHeadersLastWins<T>(lines: seq<string>, e: Email<T>, lib: TimeLib<T>, f: Field, i: nat)
    requires ApplyHeaders(lines, e, lib).Some? && f != Date
    requires i < |lines| && Assigns(lines[i], f) && UnassignedFrom(lines, f, i + 1)
    ensures Text(ApplyHeaders(lines, e, lib).value, f) == AssignedValue(lines[i])
  {
    var init, last := lines[..|lines| - 1], lines[|lines| - 1];
    var e' := ApplyHeaders(init, e, lib).value;
    if i < |lines| - 1 {
      UnassignedFromInit(lines, f, i + 1);
      assert init[i] == lines[i];
      ApplyHeadersLastWins(init, e, lib, f, i);
      HeaderStepKeeps(last, e', lib, f);
    } else {
      HeaderStepSets(last, e', lib, f);
    }
  }

  /** ... and a string field no line names keeps its value. */
  lemma {:induction false} ApplyHeadersUnassigned<T>(lines: seq<string>, e: Email<T>, lib: TimeLib<T>, f: Field)
    requires ApplyHeaders(lines, e, lib).Some? && f != Date
    requires UnassignedFrom(lines, f, 0)
    ensures Text(ApplyHeaders(lines, e, lib).value, f) == Text(e, f)
  {
    if lines != [] {
      var init, last := lines[..|lines| - 1], lines[|lines| - 1];
      UnassignedFromInit(lines, f, 0);
      ApplyHeadersUnassigned(init, e, lib, f);
      HeaderStepKeeps(last, ApplyHeaders(init, e, lib).value, lib, f);
    }
  }

  /** The date is the normalised value of the last `Date` line ... */
  lemma {:induction false} ApplyHeadersLastDate<T>(lines: seq<string>, e: Email<T>, lib: TimeLib<T>, i: nat)
    requires ApplyHeaders(lines, e, lib).Some?
    requires i < |lines| && Assigns(lines[i], Date) && UnassignedFrom(lines, Date, i + 1)
    ensures NormalizeDate(AssignedValue(lines[i]), lib).Some?
    ensures ApplyHeaders(lines, e, lib).value.date == NormalizeDate(AssignedValue(lines[i]), lib).value
  {
    var init, last := lines[..|lines| - 1], lines[|lines| - 1];
    var e' := ApplyHeaders(init, e, lib).value;
    if i < |lines| - 1 {
      UnassignedFromInit(lines, Date, i + 1);
      assert init[i] == lines[i];
      ApplyHeadersLastDate(init, e, lib, i);
      HeaderStepKeepsDate(last, e', lib);
    } else {
      HeaderStepSetsDate(last, e', lib);
    }
  }

  /** ... or the starting date when there is none. */
  lemma {:induction false} ApplyHeadersNoDate<T>(lines: seq<string>, e: Email<T>, lib: TimeLib<T>)
    requires ApplyHeaders(lines, e, lib).Some?
    requires UnassignedFrom(lines, Date, 0)
    ensures ApplyHeaders(lines, e, lib).value.date == e.date
  {
    if lines != [] {
      var init, last := lines[..|lines| - 1], lines[|lines| - 1];
      UnassignedFromInit(lines, Date, 0);
      ApplyHeadersNoDate(init, e, lib);
      HeaderStepKeepsDate(last, ApplyHeaders(init, e, lib).value, lib);
    }
  }

  // ---------------------------------------------------------------------------
  // Reading one email file

  /** What reading one email file comes to. */
  datatype FileOutcome<T> =
    | Parsed(email: Email<T>)
    | Failed(error: ReadError)
    | DateExit   // an unparseable date stopped the run

  /** The outcome of parsing the contents of the file at `path`. */
  function ParseContent<T>(path: string, content: string, lib: TimeLib<T>): FileOutcome<T> {
    match SplitMessage(content)
    case None => Failed(InvalidEmail(path))
    case Some((lines, body)) =>
      match ApplyHeaders(lines, Zero(lib.zero), lib)
      case None => DateExit
      case Some(e) => Parsed(WithText(e, Content, body))
  }

  /** The outcome of reading and parsing the file at `path`. */
  function ReadFile<T>(fs: FileSystem, path: string, lib: TimeLib<T>): FileOutcome<T> {
    if path !in fs then Failed(NotReadable(path)) else ParseContent(path, fs[path], lib)
  }

  /**
   * Reads one email file.  Without a delimiter the file is invalid and no record
   * is produced; otherwise the header lines are applied in order to the zero
   * record and the body is everything after the first delimiter.
   */
  method ReadEmailFile<T>(fs: FileSystem, path: string, lib: TimeLib<T>) returns (r: FileOutcome<T>)
    ensures r == ReadFile(fs, path, lib)
  {
    if path !in fs {
      return Failed(NotReadable(path));
    }
    var content := fs[path];
    var headerEnd := IndexOf(content, Delimiter);
    if headerEnd == -1 {
      ParseContentInvalid(path, content, lib);
      return Failed(InvalidEmail(path));
    }
    var headers := Split(content[..headerEnd], '\n');
    var body := content[headerEnd + 2..];
    SplitMessageOf(content);
    ParseContentOf(path, content, lib);
    var email := SetHeaders(headers, Zero(lib.zero), lib);
    if email.None? {
      return DateExit;
    }
    return Parsed(WithText(email.value, Content, body));
  }

  /** Applies the header lines in order, stopping at the first unparseable date. */
  method SetHeaders<T>(headers: seq<string>, start: Email<T>, lib: TimeLib<T>) returns (r: Option<Email<T>>)
    ensures r == ApplyHeaders(headers, start, lib)
  {
    var email := start;
    var i := 0;
    while i < |headers|
      invariant 0 <= i <= |headers|
      invariant ApplyHeaders(headers[..i], start, lib) == Some(email)
    {
      var next := SetHeader(headers[i], email, lib);
      ApplyHeadersPrefix(headers, i, start, lib);
      if next.None? {
        StopsAfter(headers, i, start, lib);
        return None;
      }
      email := next.value;
      i := i + 1;
    }
    assert headers[..i] == headers;
    return Some(email);
  }

  /** Parsing a file with a delimiter applies its header lines to the zero record. */
  lemma ParseContentOf<T>(path: string, content: string, lib: TimeLib<T>)
    requires SplitMessage(content).Some?
    ensures var (lines, body) := SplitMessage(content).value;
            ParseContent(path, content, lib) ==
              match ApplyHeaders(lines, Zero(lib.zero), lib)
              case None => DateExit
              case Some(e) => Parsed(WithText(e, Content, body))
  {
  }

  /** A file without a delimiter is invalid, and only such a file ... */
  lemma ParseContentInvalid<T>(path: string, content: string, lib: TimeLib<T>)
    ensures ParseContent(path, content, lib).Failed? <==> forall k :: !OccursAt(content, Delimiter, k)
    ensures ParseContent(path, content, lib).Failed? ==> ParseContent(path, content, lib).error == InvalidEmail(path)
  {
  }

  /** ... and the body of a parsed file is everything after its first delimiter. */
  lemma ParseContentBody<T>(path: string, content: string, lib: TimeLib<T>)
    requires ParseContent(path, content, lib).Parsed?
    ensures var k := IndexOf(content, Delimiter);
            0 <= k && ParseContent(path, content, lib).email.content == content[k + 2..]
  {
  }

  /** The body never influences the header fields, and becomes the content unchanged. */
  lemma BodyDoesNotAffectHeaders<T>(path: string, header: string, body1: string, body2: string, lib: TimeLib<T>)
    requires forall k :: !OccursAt(header, Delimiter, k)
    ensures var r1 := ParseContent(path, header + Delimiter + body1, lib);
            var r2 := ParseContent(path, header + Delimiter + body2, lib);
            && r1.Parsed? == r2.Parsed? && r1.DateExit? == r2.DateExit? && !r1.Failed?
            && (r1.Parsed? ==> r1.email.content == body1 && r1.email == WithText(r2.email, Content, body1))
  {
    SplitMessageCompose(header, body1);
    SplitMessageCompose(header, body2);
    ParseContentOf(path, header + Delimiter + body1, lib);
    ParseContentOf(path, header + Delimiter + body2, lib);
  }

  // ---------------------------------------------------------------------------
  // Ingestion worker

  /** The payload of one bulk write of `emails` to the configured index. */
  function BulkOf<T>(emails: seq<Email<T>>): Bulk<T> {
    Bulk(Constants.IndexName, emails)
  }

  /** What one partition's worker comes to. */
  datatype WorkerOutcome<T> =
    | Uploaded(bulk: Bulk<T>)    // every file parsed; one bulk write is issued
    | Abandoned(error: ReadError) // a file failed; nothing of the partition is written
    | Halted                      // an unparseable date stopped the run

  /**
   * Reads the files at indices `start` to `end` inclusive, in order.  The first
   * file that fails abandons the whole partition; otherwise one bulk payload of
   * all the records, in path order, is handed to the uploader.
   */
  method ReadPathEmails<T>(fs: FileSystem, pathEmails: seq<string>, start: int, end: int, lib: TimeLib<T>)
    returns (r: WorkerOutcome<T>)
    requires start <= end ==> 0 <= start && end < |pathEmails|
    ensures r.Uploaded? <==> forall i :: start <= i <= end ==> ReadFile(fs, pathEmails[i], lib).Parsed?
    ensures r.Uploaded? ==>
      && r.bulk == BulkOf(r.bulk.records)
      && r.bulk.index == Constants.IndexName
      && |r.bulk.records| == (if start <= end then end - start + 1 else 0)
      && forall k :: 0 <= k < |r.bulk.records| ==> ReadFile(fs, pathEmails[start + k], lib) == Parsed(r.bulk.records[k])
    ensures r.Abandoned? ==> exists i :: start <= i <= end && ReadFile(fs, pathEmails[i], lib) == Failed(r.error) &&
                                         forall j :: start <= j < i ==> ReadFile(fs, pathEmails[j], lib).Parsed?
    ensures r.Halted? ==> exists i :: start <= i <= end && ReadFile(fs, pathEmails[i], lib).DateExit? &&
                                      forall j :: start <= j < i ==> ReadFile(fs, pathEmails[j], lib).Parsed?
  {
    ghost var read := (p: string) => ReadFile(fs, p, lib);
    var emails: seq<Email<T>> := [];
    var i := start;
    while i <= end
      invariant start <= i && (start <= end ==> i <= end + 1) && (start > end ==> i == start)
      invariant |emails| == i - start
      invariant ParsedAs(read, pathEmails, start, emails)
    {
      var email := ReadEmailFile(fs, pathEmails[i], lib);
      assert read(pathEmails[start + |emails|]) == email;
      match email
      case Failed(err) =>
        ParsedBefore(read, pathEmails, start, emails);
        return Abandoned(err);
      case DateExit =>
        ParsedBefore(read, pathEmails, start, emails);
        return Halted;
      case Parsed(e) =>
        ParsedAsSnoc(read, pathEmails, start, emails, e);
        emails := emails + [e];
      i := i + 1;
    }
    ParsedBefore(read, pathEmails, start, emails);
    r := Uploaded(BulkOf(emails));
  }

  /** `emails` are the records `read` parses from the files at `start`, `start + 1`, ... in order. */
  ghost predicate ParsedAs<T>(read: string -> FileOutcome<T>, pathEmails: seq<string>, start: int, emails: seq<Email<T>>)
  {
    && (|emails| == 0 || (0 <= start && start + |emails| <= |pathEmails|))
    && forall k :: 0 <= k < |emails| ==> read(pathEmails[start + k]) == Parsed(emails[k])
  }

  lemma ParsedAsSnoc<T>(read: string -> FileOutcome<T>, pathEmails: seq<string>, start: int, emails: seq<Email<T>>, e: Email<T>)
    requires ParsedAs(read, pathEmails, start, emails)
    requires 0 <= start + |emails| < |pathEmails| && read(pathEmails[start + |emails|]) == Parsed(e)
    ensures ParsedAs(read, pathEmails, start, emails + [e])
  {
    var next := emails + [e];
    forall k | 0 <= k < |next|
      ensures read(pathEmails[start + k]) == Parsed(next[k])
    {
      if k < |emails| {
        assert next[k] == emails[k];
      } else {
        assert next[k] == e;
      }
    }
  }

  /** Every file before the ones still to read has parsed. */
  lemma ParsedBefore<T>(read: string -> FileOutcome<T>, pathEmails: seq<string>, start: int, emails: seq<Email<T>>)
    requires ParsedAs(read, pathEmails, start, emails)
    ensures forall j :: start <= j < start + |emails| ==> read(pathEmails[j]).Parsed?
  {
    forall j | start <= j < start + |emails|
      ensures read(pathEmails[j]).Parsed?
    {
      assert read(pathEmails[start + (j - start)]) == Parsed(emails[j - start]);
    }
  }
}

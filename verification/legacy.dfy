/**
 * The older revision of the indexer's sequential logic: header parsing that
 * stores the date as written, reading one email file, the worker that hands
 * every record to its own upload as soon as it is parsed, and the driver's
 * partition loop that requires the path count to divide evenly.
 */
module Legacy {

  import opened Wrappers
  import opened Strings
  import opened Models
  import opened Headers

  // ---------------------------------------------------------------------------
  // Header parsing

  /** One header line applied to a record as declared: the date is kept as written (trimmed). */
  function HeaderStep(line: string, e: Email<string>): Email<string> {
    match ParseHeaderLine(line)
    case None => e
    case Some((f, v)) => Put(e, f, v)
  }

  /** Sets the field a header line names; other lines leave the record as it was. */
  method SetHeader(line: string, email: Email<string>) returns (r: Email<string>)
    ensures r == HeaderStep(line, email)
  {
    var parts := SplitFirst(line, ':');
    if parts.None? {
      return email;
    }
    var headerName := TrimSpace(parts.value.0);
    var headerValue := TrimSpace(parts.value.1);
    match HeaderField(headerName)
    case None =>
      ParseUnrecognisedLine(line, parts.value.0, parts.value.1);
      r := email;
    case Some(f) =>
      ParseRecognisedLine(line, parts.value.0, parts.value.1, f);
      r := Put(email, f, headerValue);
  }

  /** The header lines applied in file order. */
  function ApplyHeaders(lines: seq<string>, e: Email<string>): Email<string>
    decreases |lines|
  {
    if lines == [] then e
    else HeaderStep(lines[|lines| - 1], ApplyHeaders(lines[..|lines| - 1], e))
  }

  /** A line that sets a field, the date included, gives it the line's trimmed value ... */
  lemma HeaderStepSets(line: string, e: Email<string>, f: Field)
    requires Assigns(line, f)
    ensures Get(HeaderStep(line, e), f) == AssignedValue(line)
  {
  }

  /** ... and leaves every field it does not set unchanged. */
  lemma HeaderStepKeeps(line: string, e: Email<string>, f: Field)
    requires !Assigns(line, f)
    ensures Get(HeaderStep(line, e), f) == Get(e, f)
  {
  }

  /** The last line that names a field decides its value (for the date, the trimmed text) ... */
  lemma {:induction false} ApplyHeadersLastWins(lines: seq<string>, e: Email<string>, f: Field, i: nat)
    requires i < |lines| && Assigns(lines[i], f) && UnassignedFrom(lines, f, i + 1)
    ensures Get(ApplyHeaders(lines, e), f) == AssignedValue(lines[i])
  {
    var init, last := lines[..|lines| - 1], lines[|lines| - 1];
    if i < |lines| - 1 {
      UnassignedFromInit(lines, f, i + 1);
      assert init[i] == lines[i];
      ApplyHeadersLastWins(init, e, f, i);
      HeaderStepKeeps(last, ApplyHeaders(init, e), f);
    } else {
      HeaderStepSets(last, ApplyHeaders(init, e), f);
    }
  }

  /** ... and a field no line names, the body among them, keeps its value. */
  lemma {:induction false} ApplyHeadersUnassigned(lines: seq<string>, e: Email<string>, f: Field)
    requires UnassignedFrom(lines, f, 0)
    ensures Get(ApplyHeaders(lines, e), f) == Get(e, f)
  {
    if lines != [] {
      var init, last := lines[..|lines| - 1], lines[|lines| - 1];
      UnassignedFromInit(lines, f, 0);
      ApplyHeadersUnassigned(init, e, f);
      HeaderStepKeeps(last, ApplyHeaders(init, e), f);
    }
  }

  /** Applying one more line of a prefix takes one more step from where the prefix left off. */
  lemma ApplyHeadersPrefix(lines: seq<string>, i: nat, e: Email<string>)
    requires i < |lines|
    ensures ApplyHeaders(lines[..i + 1], e) == HeaderStep(lines[i], ApplyHeaders(lines[..i], e))
  {
    assert lines[..i + 1] == lines[..i] + [lines[i]];
    ApplyHeadersSnoc(lines[..i], lines[i], e);
  }

  /** Applying two blocks of lines one after the other is applying their concatenation. */
  lemma {:induction false} ApplyHeadersAppend(a: seq<string>, b: seq<string>, e: Email<string>)
    ensures ApplyHeaders(a + b, e) == ApplyHeaders(b, ApplyHeaders(a, e))
    decreases |b|
  {
    if b == [] {
      assert a + b == a;
    } else {
      var init, x := b[..|b| - 1], b[|b| - 1];
      assert b == init + [x];
      assert a + b == (a + init) + [x];
      ApplyHeadersAppend(a, init, e);
      ApplyHeadersSnoc(a + init, x, e);
      ApplyHeadersSnoc(init, x, ApplyHeaders(a, e));
    }
  }

  /** One line appended to a block takes one more step from where the block left off. */
  lemma ApplyHeadersSnoc(lines: seq<string>, x: string, e: Email<string>)
    ensures ApplyHeaders(lines + [x], e) == HeaderStep(x, ApplyHeaders(lines, e))
  {
    var s := lines + [x];
    assert s[..|s| - 1] == lines && s[|s| - 1] == x;
  }

  // ---------------------------------------------------------------------------
  // Reading one email file

  /** The record parsed from a file's contents, or `None` when there is no delimiter. */
  function ParseContent(content: string): Option<Email<string>> {
    match SplitMessage(content)
    case None => None
    case Some((lines, body)) => Some(Put(ApplyHeaders(lines, Zero("")), Content, body))
  }

  /** The record and the error reading the file at `path` returns; on an error the record is empty. */
  function ReadFile(fs: FileSystem, path: string): (Email<string>, Option<ReadError>) {
    if path !in fs then (Zero(""), Some(NotReadable(path)))
    else match ParseContent(fs[path])
      case None => (Zero(""), Some(InvalidEmail(path)))
      case Some(e) => (e, None)
  }

  /**
   * Reads one email file: an error and the empty record when it cannot be read
   * or has no delimiter, otherwise the header lines applied in order to the zero
   * record, with everything after the first delimiter as body.
   */
  method ReadEmailFile(fs: FileSystem, path: string) returns (email: Email<string>, err: Option<ReadError>)
    ensures (email, err) == ReadFile(fs, path)
  {
    if path !in fs {
      return Zero(""), Some(NotReadable(path));
    }
    var content := fs[path];
    var headerEnd := IndexOf(content, Delimiter);
    if headerEnd == -1 {
      return Zero(""), Some(InvalidEmail(path));
    }
    var headers := Split(content[..headerEnd], '\n');
    var body := content[headerEnd + 2..];
    ParseContentOf(content);
    email := SetHeaders(headers, Zero(""));
    email := Put(email, Content, body);
    err := None;
  }

  /** Applies the header lines in order; no line stops this revision. */
  method SetHeaders(headers: seq<string>, start: Email<string>) returns (email: Email<string>)
    ensures email == ApplyHeaders(headers, start)
  {
    email := start;
    var i := 0;
    while i < |headers|
      invariant 0 <= i <= |headers|
      invariant email == ApplyHeaders(headers[..i], start)
    {
      email := SetHeader(headers[i], email);
      ApplyHeadersPrefix(headers, i, start);
      i := i + 1;
    }
    assert headers[..i] == headers;
  }

  /** Parsing a file with a delimiter applies its header lines to the zero record. */
  lemma ParseContentOf(content: string)
    requires IndexOf(content, Delimiter) != -1
    ensures var k := IndexOf(content, Delimiter);
            ParseContent(content) == Some(Put(ApplyHeaders(Split(content[..k], '\n'), Zero("")), Content, content[k + 2..]))
  {
    SplitMessageOf(content);
  }

  /** A file reads with an error exactly when it is missing or has no delimiter, and the record is then empty. */
  lemma ReadFileError(fs: FileSystem, path: string)
    ensures ReadFile(fs, path).1.Some? <==> path !in fs || forall k :: !OccursAt(fs[path], Delimiter, k)
    ensures ReadFile(fs, path).1.Some? ==> ReadFile(fs, path).0 == Zero("")
    ensures path in fs && ReadFile(fs, path).1.Some? ==> ReadFile(fs, path).1 == Some(InvalidEmail(path))
  {
  }

  /** A parsed file's body is everything after its first delimiter, and its headers come from before it. */
  lemma ReadFileParts(fs: FileSystem, path: string)
    requires ReadFile(fs, path).1.None?
    ensures path in fs
    ensures var content := fs[path];
            var k := IndexOf(content, Delimiter);
            && 0 <= k
            && ReadFile(fs, path).0 == Put(ApplyHeaders(Split(content[..k], '\n'), Zero("")), Content, content[k + 2..])
  {
  }

  // ---------------------------------------------------------------------------
  // Ingestion worker

  /**
   * Reads the files at indices `start` to `end` inclusive, in order, handing each
   * record to its own upload as soon as it is parsed (`sent`), and stops at the
   * first file that fails (`failure`).  Records sent before a failure stay sent.
   */
  method ReadPathEmails(fs: FileSystem, pathEmails: seq<string>, start: int, end: int)
    returns (sent: seq<Email<string>>, failure: Option<ReadError>)
    requires start <= end ==> 0 <= start && end < |pathEmails|
    ensures var count := if start <= end then end - start + 1 else 0;
            && |sent| <= count
            && (failure.None? <==> |sent| == count)
            && (failure.Some? ==> ReadFile(fs, pathEmails[start + |sent|]).1 == failure)
    ensures forall k :: 0 <= k < |sent| ==> ReadFile(fs, pathEmails[start + k]) == (sent[k], None)
  {
    ghost var read := (p: string) => ReadFile(fs, p);
    sent := [];
    var i := start;
    while i <= end
      invariant start <= i && (start <= end ==> i <= end + 1) && (start > end ==> i == start)
      invariant |sent| == i - start
      invariant SentAs(read, pathEmails, start, sent)
    {
      var email, err := ReadEmailFile(fs, pathEmails[i]);
      assert read(pathEmails[start + |sent|]) == (email, err);
      if err.Some? {
        return sent, err;
      }
      SentAsSnoc(read, pathEmails, start, sent, email);
      sent := sent + [email];
      i := i + 1;
    }
    failure := None;
  }

  /** `sent` are the records `read` returns without error for the files at `start`, `start + 1`, ... in order. */
  ghost predicate SentAs(read: string -> (Email<string>, Option<ReadError>), pathEmails: seq<string>, start: int,
                         sent: seq<Email<string>>)
  {
    && (|sent| == 0 || (0 <= start && start + |sent| <= |pathEmails|))
    && forall k :: 0 <= k < |sent| ==> read(pathEmails[start + k]) == (sent[k], None)
  }

  lemma SentAsSnoc(read: string -> (Email<string>, Option<ReadError>), pathEmails: seq<string>, start: int,
                   sent: seq<Email<string>>, e: Email<string>)
    requires SentAs(read, pathEmails, start, sent)
    requires 0 <= start + |sent| < |pathEmails| && read(pathEmails[start + |sent|]) == (e, None)
    ensures SentAs(read, pathEmails, start, sent + [e])
  {
    var next := sent + [e];
    forall k | 0 <= k < |next|
      ensures read(pathEmails[start + k]) == (next[k], None)
    {
      if k < |sent| {
        assert next[k] == sent[k];
      } else {
        assert next[k] == e;
      }
    }
  }

  // ---------------------------------------------------------------------------
  // Partition loop of the driver

  /** Partition `i`, as an inclusive range of indices, when every partition holds `division` paths. */
  function EvenRange(i: int, division: int): (int, int) {
    (i * division, i * division + (division - 1))
  }

  /**
   * The inclusive index ranges the driver hands to its workers, or `None` (the
   * process exits) when the path count does not divide evenly.
   */
  method PartitionPaths(count: nat, divisionOfPaths: int) returns (r: Option<seq<(int, int)>>)
    requires divisionOfPaths > 0
    ensures r.None? <==> count % divisionOfPaths != 0
    ensures r.Some? ==> |r.value| == divisionOfPaths &&
                        forall i :: 0 <= i < divisionOfPaths ==> r.value[i] == EvenRange(i, count / divisionOfPaths)
  {
    var division := count / divisionOfPaths;
    if count % divisionOfPaths != 0 {
      return None;
    }
    var ranges: seq<(int, int)> := [];
    var i := 0;
    while i < divisionOfPaths
      invariant 0 <= i <= divisionOfPaths
      invariant |ranges| == i
      invariant forall k :: 0 <= k < i ==> ranges[k] == EvenRange(k, division)
    {
      var start := i * division;
      var end := start + (division - 1);
      ranges := ranges + [(start, end)];
      i := i + 1;
    }
    r := Some(ranges);
  }

  /** When the count divides evenly, every index lies in the range of partition `index / division` ... */
  lemma EvenRangeCovers(count: nat, parts: nat, k: nat)
    requires parts > 0 && count % parts == 0 && k < count
    ensures var division := count / parts;
            var i := k / division;
            && division > 0 && 0 <= i < parts
            && EvenRange(i, division).0 <= k <= EvenRange(i, division).1
  {
    var division := count / parts;
    assert count == parts * division;
    assert division > 0;
    var i := k / division;
    assert k == i * division + k % division;
  }

  /** ... and in no other: the ranges of distinct partitions do not overlap. */
  lemma EvenRangesDisjoint(division: nat, i: nat, j: nat)
    requires i < j
    ensures EvenRange(i, division).1 < EvenRange(j, division).0
  {
    var gap: nat := j - i - 1;
    assert j * division == i * division + division + gap * division;
  }

  /** Together the ranges hold exactly the `count` indices: the first starts at 0 and the last ends at `count - 1`. */
  lemma EvenRangesSpan(count: nat, parts: nat)
    requires parts > 0 && count % parts == 0
    ensures EvenRange(0, count / parts).0 == 0
    ensures EvenRange(parts - 1, count / parts).1 == count - 1
  {
    var division := count / parts;
    assert count == parts * division;
    assert (parts - 1) * division + division == parts * division;
  }
}

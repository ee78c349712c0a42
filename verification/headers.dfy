/**
 * What both revisions of the indexer share when they read one email file: the
 * split into header block and body, the split of one header line into a name
 * and a value, and the fifteen header names the record recognises.
 */
module Headers {

  import opened Wrappers
  import opened Strings
  import opened Models

  /** Files are given by their contents; a path that is absent cannot be read. */
  type FileSystem = map<string, string>

  /** Why reading one email file failed. */
  datatype ReadError =
    | NotReadable(path: string)   // the file could not be read
    | InvalidEmail(path: string)  // the file has no header/body delimiter

  /** The corpus separates the header block from the body by a line feed followed by a carriage return. */
  const Delimiter: string := "\n\r"

  /** The header field a (trimmed) header name is stored in; names are matched exactly. */
  function HeaderField(name: string): (r: Option<Field>)
    ensures r != Some(Content)
  {
    if name == "Message-ID" then Some(MessageId)
    else if name == "Date" then Some(Date)
    else if name == "From" then Some(From)
    else if name == "To" then Some(To)
    else if name == "Subject" then Some(Subject)
    else if name == "Mime-Version" then Some(MimeVersion)
    else if name == "Content-Type" then Some(ContentType)
    else if name == "Content-Transfer-Encoding" then Some(ContentTransferEncoding)
    else if name == "X-From" then Some(XFrom)
    else if name == "X-To" then Some(XTo)
    else if name == "X-cc" then Some(XCc)
    else if name == "X-bcc" then Some(XBcc)
    else if name == "X-Folder" then Some(XFolder)
    else if name == "X-Origin" then Some(XOrigin)
    else if name == "X-FileName" then Some(XFileName)
    else None
  }

  /** The header name a header field is read from. */
  function HeaderName(f: Field): string
    requires f != Content
  {
    match f
    case MessageId => "Message-ID"
    case Date => "Date"
    case From => "From"
    case To => "To"
    case Subject => "Subject"
    case MimeVersion => "Mime-Version"
    case ContentType => "Content-Type"
    case ContentTransferEncoding => "Content-Transfer-Encoding"
    case XFrom => "X-From"
    case XTo => "X-To"
    case XCc => "X-cc"
    case XBcc => "X-bcc"
    case XFolder => "X-Folder"
    case XOrigin => "X-Origin"
    case XFileName => "X-FileName"
  }

  /**
   * The fifteen recognised names are exactly the names of the fifteen fields other
   * than the body: each field other than `Content` has its name, and a name is
   * recognised only if it is that of the field it selects.
   */
  lemma HeaderNamesMatchFields(name: string, f: Field)
    ensures HeaderField(name) == Some(f) <==> f != Content && name == HeaderName(f)
  {
    if f != Content {
      HeaderFieldOfName(f);
    }
    NameOfHeaderField(name);
  }

  /** Each field other than the body is selected by its own name ... */
  lemma HeaderFieldOfName(f: Field)
    requires f != Content
    ensures HeaderField(HeaderName(f)) == Some(f)
  {
    match f
    case MessageId =>
    case Date =>
    case From =>
    case To =>
    case Subject =>
    case MimeVersion =>
    case ContentType =>
    case ContentTransferEncoding =>
    case XFrom =>
    case XTo =>
    case XCc =>
    case XBcc =>
    case XFolder =>
    case XOrigin =>
    case XFileName =>
  }

  /** ... and a recognised name is the name of the field it selects. */
  lemma NameOfHeaderField(name: string)
    ensures HeaderField(name).Some? ==> name == HeaderName(HeaderField(name).value)
  {
    match HeaderField(name)
    case None =>
    case Some(f) =>
      match f
      case MessageId => assert name == "Message-ID";
      case Date => assert name == "Date";
      case From => assert name == "From";
      case To => assert name == "To";
      case Subject => assert name == "Subject";
      case MimeVersion => assert name == "Mime-Version";
      case ContentType => assert name == "Content-Type";
      case ContentTransferEncoding => assert name == "Content-Transfer-Encoding";
      case XFrom => assert name == "X-From";
      case XTo => assert name == "X-To";
      case XCc => assert name == "X-cc";
      case XBcc => assert name == "X-bcc";
      case XFolder => assert name == "X-Folder";
      case XOrigin => assert name == "X-Origin";
      case XFileName => assert name == "X-FileName";
  }

  /** A character header names are written with: a letter or a hyphen. */
  predicate NameChar(c: char) {
    ('A' <= c <= 'Z') || ('a' <= c <= 'z') || c == '-'
  }

  /** Every recognised name is written with letters and hyphens only. */
  lemma HeaderNameChars(f: Field)
    requires f != Content
    ensures HeaderName(f) != [] && forall k :: 0 <= k < |HeaderName(f)| ==> NameChar(HeaderName(f)[k])
  {
  }

  /** Recognised names contain no colon and start and end with no white space. */
  lemma HeaderNameShape(f: Field)
    requires f != Content
    ensures ':' !in HeaderName(f) && IsTrimmed(HeaderName(f))
  {
    HeaderNameChars(f);
    NameCharsShape(HeaderName(f));
  }

  /** A non-empty name of letters and hyphens has no colon and no white space at its ends. */
  lemma NameCharsShape(name: string)
    requires name != [] && forall k :: 0 <= k < |name| ==> NameChar(name[k])
    ensures ':' !in name && IsTrimmed(name)
  {
    NameCharNotSpace(name[0]);
    NameCharNotSpace(name[|name| - 1]);
  }

  /** Letters and hyphens are not white space. */
  lemma NameCharNotSpace(c: char)
    requires NameChar(c)
    ensures !IsSpace(c)
  {
  }

  /**
   * The field a header line sets and the value it sets it to, or `None` when the
   * line changes nothing: it has no colon, or the text before its first colon,
   * trimmed, is not a recognised name.  The value is everything after the first
   * colon, trimmed.
   */
  function ParseHeaderLine(line: string): (r: Option<(Field, string)>)
    ensures ':' !in line ==> r == None
    ensures r.Some? ==> r.value.0 != Content && IsTrimmed(r.value.1)
  {
    match SplitFirst(line, ':')
    case None => None
    case Some((name, value)) =>
      match HeaderField(TrimSpace(name))
      case None => None
      case Some(f) => Some((f, TrimSpace(value)))
  }

  /** A line whose first colon follows an unrecognised name changes nothing. */
  lemma ParseUnrecognisedLine(line: string, name: string, value: string)
    requires SplitFirst(line, ':') == Some((name, value))
    requires HeaderField(TrimSpace(name)) == None
    ensures ParseHeaderLine(line) == None
  {
  }

  /** A line whose first colon follows a recognised name sets that name's field. */
  lemma ParseRecognisedLine(line: string, name: string, value: string, f: Field)
    requires SplitFirst(line, ':') == Some((name, value))
    requires HeaderField(TrimSpace(name)) == Some(f)
    ensures ParseHeaderLine(line) == Some((f, TrimSpace(value)))
  {
  }

  /** `line` sets field `f`. */
  predicate Assigns(line: string, f: Field) {
    ParseHeaderLine(line).Some? && ParseHeaderLine(line).value.0 == f
  }

  /** No line of `lines` from index `from` on sets field `f`. */
  predicate UnassignedFrom(lines: seq<string>, f: Field, from: nat) {
    forall j :: from <= j < |lines| ==> !Assigns(lines[j], f)
  }

  /** Dropping the last line keeps a field unassigned; the last line itself does not set it. */
  lemma UnassignedFromInit(lines: seq<string>, f: Field, from: nat)
    requires lines != [] && UnassignedFrom(lines, f, from)
    ensures UnassignedFrom(lines[..|lines| - 1], f, from)
    ensures from < |lines| ==> !Assigns(lines[|lines| - 1], f)
  {
    var init := lines[..|lines| - 1];
    forall j | from <= j < |init|
      ensures !Assigns(init[j], f)
    {
      assert init[j] == lines[j];
    }
  }

  /** The (trimmed) value a header line sets its field to. */
  function AssignedValue(line: string): string
    requires ParseHeaderLine(line).Some?
  {
    ParseHeaderLine(line).value.1
  }

  /**
   * A line written as `<name>: <value>` sets the named field to the trimmed
   * value, whatever the value contains, colons included.
   */
  lemma ParseFormattedLine(f: Field, value: string)
    requires f != Content
    ensures ParseHeaderLine(HeaderName(f) + ": " + value) == Some((f, TrimSpace(value)))
  {
    assert HeaderName(f) + ": " + value == [] + HeaderName(f) + [] + ":" + (" " + value);
    ParseSpacedLine([], f, [], " " + value);
    TrimSpaceLeadingSpace(' ', value);
  }

  /**
   * A recognised name with white space on either side, then a colon, sets the
   * named field to the trimmed text after that colon.
   */
  lemma ParseSpacedLine(ws1: string, f: Field, ws2: string, value: string)
    requires f != Content && AllSpace(ws1) && AllSpace(ws2)
    ensures ParseHeaderLine(ws1 + HeaderName(f) + ws2 + ":" + value) == Some((f, TrimSpace(value)))
  {
    var name := ws1 + HeaderName(f) + ws2;
    HeaderNameShape(f);
    HeaderFieldOfName(f);
    TrimSpaceAround(ws1, HeaderName(f), ws2);
    NoColonAround(ws1, HeaderName(f), ws2);
    assert ws1 + HeaderName(f) + ws2 + ":" + value == name + [':'] + value;
    SplitFirstCompose(name, ':', value);
    ParseRecognisedLine(ws1 + HeaderName(f) + ws2 + ":" + value, name, value, f);
  }

  /** White space holds no colon, so a colon-free name keeps none when padded with it. */
  lemma NoColonAround(ws1: string, name: string, ws2: string)
    requires AllSpace(ws1) && AllSpace(ws2) && ':' !in name
    ensures ':' !in ws1 + name + ws2
  {
    var s := ws1 + name + ws2;
    forall k | 0 <= k < |s|
      ensures s[k] != ':'
    {
      if k < |ws1| {
        assert s[k] == ws1[k];
      } else if k < |ws1| + |name| {
        assert s[k] == name[k - |ws1|];
      } else {
        assert s[k] == ws2[k - |ws1| - |name|];
      }
    }
  }

  /**
   * Conversely, a line that sets a field is that field's name with white space
   * on either side, then its first colon, then text that trims to the value.
   */
  lemma ParseHeaderLineShape(line: string) returns (ws1: string, ws2: string, rest: string)
    requires ParseHeaderLine(line).Some?
    ensures var (f, v) := ParseHeaderLine(line).value;
            && line == ws1 + HeaderName(f) + ws2 + ":" + rest
            && AllSpace(ws1) && AllSpace(ws2)
            && ':' !in ws1 + HeaderName(f) + ws2
            && v == TrimSpace(rest)
  {
    var (f, v) := ParseHeaderLine(line).value;
    var (name, value) := SplitFirst(line, ':').value;
    assert HeaderField(TrimSpace(name)) == Some(f) && v == TrimSpace(value);
    NameOfHeaderField(TrimSpace(name));
    ws1, ws2 := TrimSpaceSplit(name);
    rest := value;
    assert name == ws1 + HeaderName(f) + ws2;
    assert line == name + [':'] + value;
  }

  /**
   * The header block as lines and the body, or `None` when `content` has no
   * delimiter.  The header block is everything before the first delimiter, split
   * on line feeds; the body is everything after that delimiter.
   */
  function SplitMessage(content: string): (r: Option<(seq<string>, string)>)
    ensures r.None? <==> forall k :: !OccursAt(content, Delimiter, k)
    ensures r.Some? ==>
      var k := IndexOf(content, Delimiter);
      && 0 <= k && OccursAt(content, Delimiter, k)
      && |r.value.0| >= 1
      && Join(r.value.0, '\n') == content[..k]
      && SeparatorFree(r.value.0, '\n')
      && r.value.1 == content[k + 2..]
  {
    var k := IndexOf(content, Delimiter);
    if k == -1 then None
    else
      JoinSplit(content[..k], '\n');
      SplitPiecesFree(content[..k], '\n');
      Some((Split(content[..k], '\n'), content[k + 2..]))
  }

  /** With a delimiter, the split is the header lines before it and the text after it. */
  lemma SplitMessageOf(content: string)
    requires IndexOf(content, Delimiter) != -1
    ensures var k := IndexOf(content, Delimiter);
            SplitMessage(content) == Some((Split(content[..k], '\n'), content[k + 2..]))
  {
  }

  /**
   * Splitting a message composed of a delimiter-free header block, the delimiter
   * and any body gives back the header lines and exactly that body.
   */
  lemma SplitMessageCompose(header: string, body: string)
    requires forall k :: !OccursAt(header, Delimiter, k)
    ensures SplitMessage(header + Delimiter + body) == Some((Split(header, '\n'), body))
  {
    var s := header + Delimiter + body;
    assert OccursAt(s, Delimiter, |header|);
    forall j | 0 <= j < |header|
      ensures !OccursAt(s, Delimiter, j)
    {
      if j + 2 <= |header| {
        assert s[j..j + 2] == header[j..j + 2];
        assert !OccursAt(header, Delimiter, j);
      } else {
        assert s[j..j + 2][1] == s[j + 1] == '\n' != Delimiter[1];
      }
    }
    var k := IndexOf(s, Delimiter);
    assert k == |header|;
    assert s[..k] == header;
    assert s[k + 2..] == body;
  }
}

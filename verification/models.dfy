/**
 * The indexer's records: one parsed `Email` and the `Bulk` payload that carries
 * many of them to the search index.
 */
module Models {

  import opened Wrappers

  /** The sixteen fields of an email record: fifteen header fields and the body. */
  datatype Field =
    | MessageId | Date | From | To | Subject | MimeVersion | ContentType
    | ContentTransferEncoding | XFrom | XTo | XCc | XBcc | XFolder | XOrigin
    | XFileName | Content

  /**
   * One parsed message.  The record declares every field as a string; one
   * revision of the indexer stores a parsed timestamp in the date field instead,
   * so the type of `date` is a parameter: `Email<string>` is the record as declared.
   */
  datatype Email<D> = Email(
    messageId: string,
    date: D,
    from: string,
    to: string,
    subject: string,
    mimeVersion: string,
    contentType: string,
    contentTransferEncoding: string,
    xFrom: string,
    xTo: string,
    xCc: string,
    xBcc: string,
    xFolder: string,
    xOrigin: string,
    xFileName: string,
    content: string)

  /** The payload of one bulk write: the index name and the records, in order. */
  datatype Bulk<D> = Bulk(index: string, records: seq<Email<D>>)

  /** The key each field is serialised under. */
  function JsonKey(f: Field): string {
    match f
    case MessageId => "message_id"
    case Date => "date"
    case From => "from"
    case To => "to"
    case Subject => "subject"
    case MimeVersion => "mime_version"
    case ContentType => "content_type"
    case ContentTransferEncoding => "content_transfer_encoding"
    case XFrom => "x_from"
    case XTo => "x_to"
    case XCc => "x_cc"
    case XBcc => "x_bcc"
    case XFolder => "x_folder"
    case XOrigin => "x_origin"
    case XFileName => "x_filename"
    case Content => "content"
  }

  /** A lower-case letter or an underscore. */
  predicate SnakeChar(c: char) {
    ('a' <= c <= 'z') || c == '_'
  }

  /** A snake_case key: lower-case letters and underscores, starting with a letter. */
  predicate SnakeCase(key: string) {
    key != [] && 'a' <= key[0] <= 'z' && forall k :: 0 <= k < |key| ==> SnakeChar(key[k])
  }

  /** Every key is snake_case. */
  lemma JsonKeySnakeCase(f: Field)
    ensures SnakeCase(JsonKey(f))
  {
    match f
    case MessageId =>
    case Date =>
    case From =>
    case To =>
    case Subject =>
    case MimeVersion =>
    case ContentType =>
    case ContentTransferEncoding =>
    case XFrom =>
    case XTo =>
    case XCc =>
    case XBcc =>
    case XFolder =>
    case XOrigin =>
    case XFileName =>
    case Content =>
  }

  /** The field a serialised key belongs to, if any. */
  function FieldOfJsonKey(key: string): Option<Field> {
    if key == "message_id" then Some(MessageId)
    else if key == "date" then Some(Date)
    else if key == "from" then Some(From)
    else if key == "to" then Some(To)
    else if key == "subject" then Some(Subject)
    else if key == "mime_version" then Some(MimeVersion)
    else if key == "content_type" then Some(ContentType)
    else if key == "content_transfer_encoding" then Some(ContentTransferEncoding)
    else if key == "x_from" then Some(XFrom)
    else if key == "x_to" then Some(XTo)
    else if key == "x_cc" then Some(XCc)
    else if key == "x_bcc" then Some(XBcc)
    else if key == "x_folder" then Some(XFolder)
    else if key == "x_origin" then Some(XOrigin)
    else if key == "x_filename" then Some(XFileName)
    else if key == "content" then Some(Content)
    else None
  }

  /** Every key leads back to its own field, so no two fields share a key. */
  lemma JsonKeyRoundTrip(f: Field)
    ensures FieldOfJsonKey(JsonKey(f)) == Some(f)
  {
  }

  lemma JsonKeysDistinct(f: Field, g: Field)
    requires f != g
    ensures JsonKey(f) != JsonKey(g)
  {
    JsonKeyRoundTrip(f);
    JsonKeyRoundTrip(g);
  }

  /** The value of a string-typed field. */
  function Text<D>(e: Email<D>, f: Field): string
    requires f != Date
  {
    match f
    case MessageId => e.messageId
    case From => e.from
    case To => e.to
    case Subject => e.subject
    case MimeVersion => e.mimeVersion
    case ContentType => e.contentType
    case ContentTransferEncoding => e.contentTransferEncoding
    case XFrom => e.xFrom
    case XTo => e.xTo
    case XCc => e.xCc
    case XBcc => e.xBcc
    case XFolder => e.xFolder
    case XOrigin => e.xOrigin
    case XFileName => e.xFileName
    case Content => e.content
  }

  /** The record with one string-typed field replaced and every other field kept. */
  function WithText<D>(e: Email<D>, f: Field, v: string): (r: Email<D>)
    requires f != Date
    ensures Text(r, f) == v
    ensures r.date == e.date
    ensures forall g :: g != Date && g != f ==> Text(r, g) == Text(e, g)
  {
    match f
    case MessageId => e.(messageId := v)
    case From => e.(from := v)
    case To => e.(to := v)
    case Subject => e.(subject := v)
    case MimeVersion => e.(mimeVersion := v)
    case ContentType => e.(contentType := v)
    case ContentTransferEncoding => e.(contentTransferEncoding := v)
    case XFrom => e.(xFrom := v)
    case XTo => e.(xTo := v)
    case XCc => e.(xCc := v)
    case XBcc => e.(xBcc := v)
    case XFolder => e.(xFolder := v)
    case XOrigin => e.(xOrigin := v)
    case XFileName => e.(xFileName := v)
    case Content => e.(content := v)
  }

  /** Replacing the date keeps every string field. */
  lemma DateUpdateKeepsText<D>(e: Email<D>, t: D, f: Field)
    requires f != Date
    ensures Text(e.(date := t), f) == Text(e, f)
  {
  }

  /** A record is determined by its date and its string-typed fields. */
  lemma TextExtensional<D>(a: Email<D>, b: Email<D>)
    requires a.date == b.date
    requires forall g :: g != Date ==> Text(a, g) == Text(b, g)
    ensures a == b
  {
    assert Text(a, MessageId) == Text(b, MessageId);
    assert Text(a, From) == Text(b, From);
    assert Text(a, To) == Text(b, To);
    assert Text(a, Subject) == Text(b, Subject);
    assert Text(a, MimeVersion) == Text(b, MimeVersion);
    assert Text(a, ContentType) == Text(b, ContentType);
    assert Text(a, ContentTransferEncoding) == Text(b, ContentTransferEncoding);
    assert Text(a, XFrom) == Text(b, XFrom);
    assert Text(a, XTo) == Text(b, XTo);
    assert Text(a, XCc) == Text(b, XCc);
    assert Text(a, XBcc) == Text(b, XBcc);
    assert Text(a, XFolder) == Text(b, XFolder);
    assert Text(a, XOrigin) == Text(b, XOrigin);
    assert Text(a, XFileName) == Text(b, XFileName);
    assert Text(a, Content) == Text(b, Content);
  }

  /**
   * The zero record (`models.Email{}`): every string field empty and the date at
   * its type's zero value.  Parsing starts from it.
   */
  function Zero<D>(zeroDate: D): (e: Email<D>)
    ensures e.date == zeroDate
    ensures forall f :: f != Date ==> Text(e, f) == ""
  {
    Email("", zeroDate, "", "", "", "", "", "", "", "", "", "", "", "", "", "")
  }

  /** Any field of a record as declared (all sixteen fields are strings). */
  function Get(e: Email<string>, f: Field): string {
    if f == Date then e.date else Text(e, f)
  }

  /** The declared record with one field replaced and every other field kept. */
  function Put(e: Email<string>, f: Field, v: string): (r: Email<string>)
    ensures Get(r, f) == v
    ensures forall g :: g != f ==> Get(r, g) == Get(e, g)
  {
    if f == Date then e.(date := v) else WithText(e, f, v)
  }
}

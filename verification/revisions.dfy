/**
 * How the two revisions of the indexer relate: reading the same file, they fail
 * in the same cases with the same error, agree on every string field, and the
 * newer revision's date is the normalised form of the older revision's date text
 * (or both are at their zero value when no line sets a date).
 */
module Revisions {

  import opened Wrappers
  import opened Models
  import opened Headers
  import Utils
  import Legacy

  /** A record of the newer revision `u` matches a record of the older revision `l`. */
  ghost predicate Agree<T>(u: Email<T>, l: Email<string>, lib: Utils.TimeLib<T>) {
    && (forall g :: g != Date ==> Text(u, g) == Get(l, g))
    && ((Utils.NormalizeDate(l.date, lib).Some? && u.date == Utils.NormalizeDate(l.date, lib).value)
        || (u.date == lib.zero && l.date == ""))
  }

  /** One header line keeps two matching records matching, unless it stops the newer revision. */
  lemma StepAgree<T>(line: string, u: Email<T>, l: Email<string>, lib: Utils.TimeLib<T>)
    requires Agree(u, l, lib) && Utils.HeaderStep(line, u, lib).Some?
    ensures Agree(Utils.HeaderStep(line, u, lib).value, Legacy.HeaderStep(line, l), lib)
  {
    match ParseHeaderLine(line)
    case None =>
    case Some((f, v)) =>
      var l' := Put(l, f, v);
      assert Legacy.HeaderStep(line, l) == l';
      if f == Date {
        var t := Utils.NormalizeDate(v, lib).value;
        assert Utils.HeaderStep(line, u, lib) == Some(u.(date := t));
        forall g | g != Date
          ensures Text(u.(date := t), g) == Text(u, g)
        {
          DateUpdateKeepsText(u, t, g);
        }
        assert l'.date == v;
      } else {
        var u' := WithText(u, f, v);
        assert Utils.HeaderStep(line, u, lib) == Some(u');
        forall g | g != Date
          ensures Text(u', g) == Get(l', g)
        {
          if g != f {
            assert Text(u', g) == Text(u, g) && Get(l', g) == Get(l, g);
          }
        }
        assert l'.date == Get(l', Date) == Get(l, Date);
      }
  }

  /** The header lines keep two matching records matching, unless they stop the newer revision. */
  lemma {:induction false} ApplyAgree<T>(lines: seq<string>, u: Email<T>, l: Email<string>, lib: Utils.TimeLib<T>)
    requires Agree(u, l, lib) && Utils.ApplyHeaders(lines, u, lib).Some?
    ensures Agree(Utils.ApplyHeaders(lines, u, lib).value, Legacy.ApplyHeaders(lines, l), lib)
    decreases |lines|
  {
    if lines != [] {
      var init, last := lines[..|lines| - 1], lines[|lines| - 1];
      var u' := Utils.ApplyHeaders(init, u, lib);
      assert u'.Some?;
      ApplyAgree(init, u, l, lib);
      StepAgree(last, u'.value, Legacy.ApplyHeaders(init, l), lib);
    }
  }

  /**
   * Reading the same file, the newer revision fails exactly when the older one
   * reports an error, with the same error; when it parses the file, its record
   * matches the older revision's; and it stops the run only on a file the older
   * revision reads without error.
   */
  lemma ReadFileAgree<T>(fs: FileSystem, path: string, lib: Utils.TimeLib<T>)
    ensures Utils.ReadFile(fs, path, lib).Failed? <==> Legacy.ReadFile(fs, path).1.Some?
    ensures Utils.ReadFile(fs, path, lib).Failed? ==>
              Legacy.ReadFile(fs, path).1 == Some(Utils.ReadFile(fs, path, lib).error)
    ensures Utils.ReadFile(fs, path, lib).Parsed? ==>
              Agree(Utils.ReadFile(fs, path, lib).email, Legacy.ReadFile(fs, path).0, lib)
  {
    if path in fs {
      var content := fs[path];
      match SplitMessage(content)
      case None =>
      case Some((lines, body)) =>
        var u0, l0 := Zero(lib.zero), Zero("");
        assert Agree(u0, l0, lib);
        assert Legacy.ParseContent(content) == Some(Put(Legacy.ApplyHeaders(lines, l0), Content, body));
        match Utils.ApplyHeaders(lines, u0, lib)
        case None =>
        case Some(u) =>
          ApplyAgree(lines, u0, l0, lib);
          var l := Legacy.ApplyHeaders(lines, l0);
          assert Utils.ParseContent(path, content, lib) == Utils.Parsed(WithText(u, Content, body));
          assert Get(Put(l, Content, body), Date) == Get(l, Date);
    }
  }
}

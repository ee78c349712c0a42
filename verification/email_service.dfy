/** The frontend's display helper for sender names. */
module EmailService {

  import opened Strings

  /** Shown when nothing of the sender's name is left. */
  const UnknownName: string := "Unknown"

  /** No two characters of `s` are spaces. */
  predicate AtMostOneSpace(s: string) {
    forall i, j :: 0 <= i < j < |s| && s[i] == ' ' ==> s[j] != ' '
  }

  /** `p` is a prefix of `s`. */
  predicate IsPrefix(p: string, s: string) {
    |p| <= |s| && p == s[..|p|]
  }

  /** A prefix of a prefix is a prefix. */
  lemma PrefixTransitive(p: string, q: string, s: string)
    requires IsPrefix(p, q) && IsPrefix(q, s)
    ensures IsPrefix(p, s)
  {
    assert s[..|q|][..|p|] == s[..|p|];
  }

  /** A character absent from a text is absent from its prefixes. */
  lemma PrefixAbsent(p: string, s: string, c: char)
    requires IsPrefix(p, s) && c !in s
    ensures c !in p
  {
    forall k | 0 <= k < |p|
      ensures p[k] != c
    {
      assert p[k] == s[k];
    }
  }

  /** The text before the first `<` (all of it when there is none). */
  function BeforeTag(name: string): (r: string)
    ensures IsPrefix(r, name) && '<' !in r
    ensures '<' !in name ==> r == name
    ensures '<' in name ==> |r| < |name| && name[|r|] == '<'
  {
    Split(name, '<')[0]
  }

  /** The text before the first `@` when there is one, otherwise the text unchanged. */
  function BeforeAt(s: string): (r: string)
    ensures IsPrefix(r, s) && '@' !in r
    ensures '@' !in s ==> r == s
    ensures '@' in s ==> |r| < |s| && s[|r|] == '@'
  {
    if |Split(s, '@')| > 1 then Split(s, '@')[0] else s
  }

  /** The first two space-separated words joined by one space when there is a space, otherwise the text unchanged. */
  function FirstTwoWords(s: string): (r: string)
    ensures IsPrefix(r, s) && AtMostOneSpace(r)
    ensures ' ' !in s ==> r == s
    ensures ' ' in s ==> ' ' in r && (|r| == |s| || s[|r|] == ' ')
  {
    if |Split(s, ' ')| > 1 then
      TwoWordsArePrefix(s);
      TwoWordsOneSpace(s);
      TwoWordsEnd(s);
      Split(s, ' ')[0] + " " + Split(s, ' ')[1]
    else s
  }

  /** The first two pieces of a split at spaces, rejoined by one space, are a prefix of `s` ... */
  lemma TwoWordsArePrefix(s: string)
    requires ' ' in s
    ensures var words := Split(s, ' ');
            var r := words[0] + " " + words[1];
            |r| <= |s| && r == s[..|r|]
  {
    var (head, tail) := SplitFirst(s, ' ').value;
    var w := Split(tail, ' ')[0];
    SplitCons(s, ' ', head, tail);
    assert Split(s, ' ')[0] == head && Split(s, ' ')[1] == w;
    PrefixThrough(s, head, ' ', tail, w);
  }

  /** ... that ends where `s` ends or at a space ... */
  lemma TwoWordsEnd(s: string)
    requires ' ' in s
    ensures var words := Split(s, ' ');
            var r := words[0] + " " + words[1];
            ' ' in r && (|r| == |s| || (|r| < |s| && s[|r|] == ' '))
  {
    var (head, tail) := SplitFirst(s, ' ').value;
    var w := Split(tail, ' ')[0];
    SplitCons(s, ' ', head, tail);
    var r := head + " " + w;
    assert r[|head|] == ' ';
    if ' ' in tail {
      assert s[|r|] == tail[|w|];
    }
  }

  /** ... holding a single space. */
  lemma TwoWordsOneSpace(s: string)
    requires ' ' in s
    ensures var words := Split(s, ' ');
            AtMostOneSpace(words[0] + " " + words[1])
  {
    var (head, tail) := SplitFirst(s, ' ').value;
    SplitCons(s, ' ', head, tail);
    OneSpaceBetween(head, Split(tail, ' ')[0]);
  }

  /** A prefix of what follows a separator extends the text before it to a prefix of the whole. */
  lemma PrefixThrough(s: string, head: string, c: char, tail: string, w: string)
    requires s == head + [c] + tail && IsPrefix(w, tail)
    ensures IsPrefix(head + [c] + w, s)
  {
    assert s[..|head| + 1 + |w|] == head + [c] + w;
  }

  /** Two space-free words joined by one space hold exactly that one space. */
  lemma OneSpaceBetween(a: string, b: string)
    requires ' ' !in a && ' ' !in b
    ensures AtMostOneSpace(a + " " + b)
  {
    var r := a + " " + b;
    assert |r| == |a| + 1 + |b|;
    forall k | 0 <= k < |r| && k != |a|
      ensures r[k] != ' '
    {
      if k < |a| {
        assert r[k] == a[k];
      } else {
        assert r[k] == b[k - |a| - 1];
      }
    }
  }

  /**
   * The display form of a sender such as `John Smith <john.smith@example.com>`:
   * the text before the first `<`, then before the first `@`, then at most its
   * first two space-separated words; `Unknown` when nothing is left.
   */
  function ParseName(name: string): (r: string)
    ensures '<' !in r && '@' !in r
    ensures r != []
    ensures r == UnknownName || IsPrefix(r, name)
    ensures AtMostOneSpace(r)
    ensures name != [] && '<' !in name && '@' !in name && ' ' !in name ==> r == name
    ensures var cut := BeforeAt(BeforeTag(name));
            && (cut == [] ==> r == UnknownName)
            && (cut != [] && ' ' !in cut ==> r == cut)
  {
    var beforeTag := BeforeTag(name);
    var beforeAt := BeforeAt(beforeTag);
    var words := FirstTwoWords(beforeAt);
    PrefixAbsent(beforeAt, beforeTag, '<');
    PrefixAbsent(words, beforeAt, '<');
    PrefixAbsent(words, beforeAt, '@');
    PrefixTransitive(beforeAt, beforeTag, name);
    PrefixTransitive(words, beforeAt, name);
    if |words| == 0 then UnknownName else words
  }

  /** When what is left after the cuts at `<` and `@` has a space, the result is its first two words. */
  lemma ParseNameTwoWords(name: string)
    requires ' ' in BeforeAt(BeforeTag(name))
    ensures var words := Split(BeforeAt(BeforeTag(name)), ' ');
            ParseName(name) == words[0] + " " + words[1]
  {
  }
}

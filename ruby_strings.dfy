/**
 * The few Ruby and ActiveSupport string operations the application's logic
 * depends on: `blank?`/`present?`, the awk-style `split(' ')` that extracts the
 * bearer token, and `split(',')`, which drops trailing empty fields.
 */
module RubyStrings {
  import opened Wrappers

  /** `[[:space:]]`, the class `String#blank?` tests against: Unicode White_Space. */
  predicate IsSpace(c: char) {
    || ('\t' <= c <= '\r') || c == ' ' || c == '\U{85}' || c == '\U{A0}' || c == '\U{1680}'
    || ('\U{2000}' <= c <= '\U{200A}') || c == '\U{2028}' || c == '\U{2029}'
    || c == '\U{202F}' || c == '\U{205F}' || c == '\U{3000}'
  }

  /** `String#blank?`: empty or white space only. */
  predicate Blank(s: string) {
    forall i | 0 <= i < |s| :: IsSpace(s[i])
  }

  /** `present?` on an attribute that may be nil; nil is blank. */
  predicate Present(o: Option<string>) {
    o.Some? && !Blank(o.value)
  }

  /** The separators of the awk-style `split(' ')`: ASCII white space. */
  predicate IsAsciiSpace(c: char) {
    c == ' ' || ('\t' <= c <= '\r')
  }

  predicate NoSpace(s: string) {
    forall i | 0 <= i < |s| :: !IsAsciiSpace(s[i])
  }

  /** Leading white space removed. */
  function DropSpaces(s: string): (r: string)
    ensures |r| <= |s|
    ensures r == [] || !IsAsciiSpace(r[0])
  {
    if s != [] && IsAsciiSpace(s[0]) then DropSpaces(s[1..]) else s
  }

  /** The longest prefix without white space. */
  function TakeWord(s: string): (w: string)
    ensures |w| <= |s| && w == s[..|w|] && NoSpace(w)
    ensures |w| == |s| || IsAsciiSpace(s[|w|])
  {
    if s == [] || IsAsciiSpace(s[0]) then [] else [s[0]] + TakeWord(s[1..])
  }

  /**
   * `s.split(' ')`: the maximal runs of non-white-space characters, with
   * leading, trailing and repeated white space ignored.
   */
  function Words(s: string): (ws: seq<string>)
    ensures forall k | 0 <= k < |ws| :: ws[k] != [] && NoSpace(ws[k])
    decreases |s|
  {
    var t := DropSpaces(s);
    if t == [] then []
    else
      var w := TakeWord(t);
      [w] + Words(t[|w|..])
  }

  /** `xs.join(sep)` for a one-character separator. */
  function Join(xs: seq<string>, sep: char): string {
    if |xs| == 0 then []
    else if |xs| == 1 then xs[0]
    else xs[0] + [sep] + Join(xs[1..], sep)
  }

  lemma {:induction false} TakeWordOfWord(w: string, tail: string)
    requires NoSpace(w)
    requires tail == [] || IsAsciiSpace(tail[0])
    ensures TakeWord(w + tail) == w
  {
    if w != [] {
      assert (w + tail)[1..] == w[1..] + tail;
      TakeWordOfWord(w[1..], tail);
    } else {
      assert w + tail == tail;
    }
  }

  /** Splitting words joined by single spaces gives the words back. */
  lemma {:induction false} WordsOfJoin(ws: seq<string>)
    requires forall k | 0 <= k < |ws| :: ws[k] != [] && NoSpace(ws[k])
    ensures Words(Join(ws, ' ')) == ws
  {
    if ws != [] {
      var w, s := ws[0], Join(ws, ' ');
      if |ws| == 1 {
        TakeWordOfWord(w, []);
        assert w + [] == w;
        assert s[|w|..] == [];
      } else {
        var rest := Join(ws[1..], ' ');
        assert s == w + ([' '] + rest);
        TakeWordOfWord(w, [' '] + rest);
        assert s[|w|..] == [' '] + rest;
        assert rest == ws[1] + (if |ws| == 2 then [] else [' '] + Join(ws[2..], ' '));
        assert rest[0] == ws[1][0];
        assert DropSpaces([' '] + rest) == rest;
        WordsOfJoin(ws[1..]);
        assert Words([' '] + rest) == Words(rest);
      }
    }
  }

  /** A header `scheme token` has `token` as its second word, whatever the scheme. */
  lemma SecondWordOfHeader(scheme: string, token: string)
    requires scheme != [] && NoSpace(scheme)
    requires token != [] && NoSpace(token)
    ensures |Words(scheme + " " + token)| == 2 && Words(scheme + " " + token)[1] == token
  {
    var ws := [scheme, token];
    assert ws[1..] == [token];
    assert Join(ws, ' ') == scheme + " " + token;
    WordsOfJoin(ws);
  }

  /** The first position of `c` in `s`, if any. */
  function IndexOf(s: string, c: char): (r: Option<nat>)
    ensures r.Some? ==> r.value < |s| && s[r.value] == c && c !in s[..r.value]
    ensures r.None? ==> c !in s
  {
    if s == [] then None
    else if s[0] == c then Some(0)
    else
      match IndexOf(s[1..], c)
      case None => None
      case Some(i) => assert s[..i + 1] == [s[0]] + s[1..][..i]; Some(i + 1)
  }

  /** The last position of `c` in `s`, if any. */
  function LastIndexOf(s: string, c: char): (r: Option<nat>)
    ensures r.Some? ==> r.value < |s| && s[r.value] == c && c !in s[r.value + 1..]
    ensures r.None? ==> c !in s
  {
    if s == [] then None
    else if s[|s| - 1] == c then Some(|s| - 1)
    else
      match LastIndexOf(s[..|s| - 1], c)
      case None => None
      case Some(i) => assert s[i + 1..] == s[..|s| - 1][i + 1..] + [s[|s| - 1]]; Some(i)
  }

  /** The pieces of `s` between occurrences of `sep`, empty pieces included. */
  function Fields(s: string, sep: char): (r: seq<string>)
    ensures |r| >= 1
    ensures forall k | 0 <= k < |r| :: sep !in r[k]
    decreases |s|
  {
    match IndexOf(s, sep)
    case None => [s]
    case Some(i) => [s[..i]] + Fields(s[i + 1..], sep)
  }

  /** Ruby's default `split` limit: trailing empty fields are suppressed. */
  function DropTrailingEmpty(xs: seq<string>): (r: seq<string>)
    ensures r <= xs
    ensures r == [] || r[|r| - 1] != []
    ensures forall k | |r| <= k < |xs| :: xs[k] == []
  {
    if xs == [] || xs[|xs| - 1] != [] then xs
    else DropTrailingEmpty(xs[..|xs| - 1])
  }

  /** `s.split(sep)` for a one-character separator other than a space. */
  function Split(s: string, sep: char): seq<string> {
    DropTrailingEmpty(Fields(s, sep))
  }

  /** A non-empty string without the separator splits into itself alone. */
  lemma SplitWithoutSeparator(s: string, sep: char)
    requires s != [] && sep !in s
    ensures Split(s, sep) == [s]
  {
  }

  /** The fields of a string, joined back with the separator, give the string. */
  lemma {:induction false} JoinFields(s: string, sep: char)
    ensures Join(Fields(s, sep), sep) == s
    decreases |s|
  {
    var r := IndexOf(s, sep);
    if r.Some? {
      var i := r.value;
      var rest := s[i + 1..];
      var fr := Fields(rest, sep);
      var fs := [s[..i]] + fr;
      assert Fields(s, sep) == fs;
      assert fs[1..] == fr;
      JoinFields(rest, sep);
      assert Join(fs, sep) == s[..i] + [sep] + Join(fr, sep);
      assert s == s[..i] + [sep] + rest;
    }
  }

  lemma {:induction false} AllEmptyFieldsMeansOnlySeparators(s: string, sep: char)
    requires forall k | 0 <= k < |Fields(s, sep)| :: Fields(s, sep)[k] == []
    ensures forall i | 0 <= i < |s| :: s[i] == sep
    decreases |s|
  {
    var r := IndexOf(s, sep);
    if r.None? {
      assert Fields(s, sep) == [s];
      assert Fields(s, sep)[0] == s;
    } else {
      var i := r.value;
      var rest := s[i + 1..];
      var fr := Fields(rest, sep);
      var fs := [s[..i]] + fr;
      assert Fields(s, sep) == fs;
      assert fs[0] == [];
      forall k | 0 <= k < |fr| ensures fr[k] == [] {
        assert fs[k + 1] == fr[k];
      }
      AllEmptyFieldsMeansOnlySeparators(rest, sep);
      forall j | 0 <= j < |s| ensures s[j] == sep {
        if j > i { assert s[j] == rest[j - i - 1]; }
      }
    }
  }

  lemma {:induction false} OnlySeparatorsMeansAllEmptyFields(s: string, sep: char)
    requires forall i | 0 <= i < |s| :: s[i] == sep
    ensures forall k | 0 <= k < |Fields(s, sep)| :: Fields(s, sep)[k] == []
    decreases |s|
  {
    if s == [] {
      assert Fields(s, sep) == [s];
    } else {
      assert IndexOf(s, sep) == Some(0);
      var rest := s[1..];
      var fr := Fields(rest, sep);
      var fs := [s[..0]] + fr;
      assert Fields(s, sep) == fs;
      OnlySeparatorsMeansAllEmptyFields(rest, sep);
      forall k | 0 <= k < |fs| ensures fs[k] == [] {
        if k > 0 { assert fs[k] == fr[k - 1]; }
      }
    }
  }

  lemma {:induction false} DropAllEmpty(xs: seq<string>)
    requires forall k | 0 <= k < |xs| :: xs[k] == []
    ensures DropTrailingEmpty(xs) == []
  {
    if xs != [] {
      DropAllEmpty(xs[..|xs| - 1]);
    }
  }

  /** `split(sep)` yields nothing exactly when the string is made only of separators (or is empty). */
  lemma SplitEmptyIff(s: string, sep: char)
    ensures Split(s, sep) == [] <==> forall i | 0 <= i < |s| :: s[i] == sep
  {
    var fs := Fields(s, sep);
    var r := Split(s, sep);
    if r == [] {
      AllEmptyFieldsMeansOnlySeparators(s, sep);
    }
    if forall i | 0 <= i < |s| :: s[i] == sep {
      OnlySeparatorsMeansAllEmptyFields(s, sep);
      DropAllEmpty(fs);
    }
  }
}

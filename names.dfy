/**
 * The display-name parser: a donor's display string "character@account" is
 * trimmed of surrounding whitespace and split on '@'.
 */
module Names {

  /**
   * Whitespace as `unicode.strip()` of Python 2 sees it (its Unicode 5.2
   * tables); the decoded JSON hands the parser unicode strings.
   */
  predicate IsSpace(c: char) {
    || ('\t' <= c <= '\r')
    || ('\U{1C}' <= c <= '\U{1F}')
    || c == ' ' || c == '\U{85}' || c == '\U{A0}' || c == '\U{1680}' || c == '\U{180E}'
    || ('\U{2000}' <= c <= '\U{200A}')
    || c == '\U{2028}' || c == '\U{2029}' || c == '\U{202F}' || c == '\U{205F}' || c == '\U{3000}'
  }

  predicate AllSpace(s: string) {
    forall i :: 0 <= i < |s| ==> IsSpace(s[i])
  }

  /** How many whitespace characters `s` starts with. */
  function LeadingSpaces(s: string): (n: nat)
    ensures n <= |s| && AllSpace(s[..n])
    ensures n < |s| ==> !IsSpace(s[n])
  {
    if s != [] && IsSpace(s[0]) then
      var n := 1 + LeadingSpaces(s[1..]);
      assert s[..n] == [s[0]] + s[1..][..n - 1];
      n
    else 0
  }

  /** How many whitespace characters `s` ends with. */
  function TrailingSpaces(s: string): (n: nat)
    ensures n <= |s| && AllSpace(s[|s| - n..])
    ensures n < |s| ==> !IsSpace(s[|s| - 1 - n])
  {
    if s != [] && IsSpace(s[|s| - 1]) then
      var init := s[..|s| - 1];
      var m := TrailingSpaces(init);
      var n := 1 + m;
      assert s[|s| - n..] == init[|init| - m..] + [s[|s| - 1]];
      assert n < |s| ==> s[|s| - 1 - n] == init[|init| - 1 - m];
      n
    else 0
  }

  /** `str.strip()`: whitespace removed at both ends (StripRemovesOnlyWhitespace says what else is kept). */
  function Strip(s: string): (r: string)
    ensures |r| <= |s|
    ensures r != [] ==> !IsSpace(r[0]) && !IsSpace(r[|r| - 1])
  {
    var t := s[LeadingSpaces(s)..];
    t[..|t| - TrailingSpaces(t)]
  }

  /** Stripping keeps an infix of the string and removes only whitespace around it. */
  lemma StripRemovesOnlyWhitespace(s: string)
    ensures var r := Strip(s);
      exists i :: 0 <= i <= |s| - |r| && r == s[i..i + |r|] && AllSpace(s[..i]) && AllSpace(s[i + |r|..])
  {
    var i := LeadingSpaces(s);
    var t := s[i..];
    var r := Strip(s);
    assert r == s[i..i + |r|];
    assert s[i + |r|..] == t[|t| - TrailingSpaces(t)..];
  }

  /** Stripping twice strips nothing more. */
  lemma StripIdempotent(s: string)
    ensures Strip(Strip(s)) == Strip(s)
  {
    var r := Strip(s);
    assert LeadingSpaces(r) == 0;
    assert r[0..] == r;
    assert TrailingSpaces(r) == 0;
    assert r[..|r|] == r;
  }

  /** The inverse of Split: the parts glued back together with the separator. */
  function Join(parts: seq<string>, sep: char): string
    decreases |parts|
  {
    if parts == [] then ""
    else if |parts| == 1 then parts[0]
    else parts[0] + [sep] + Join(parts[1..], sep)
  }

  /**
   * `str.split(sep)`: never empty (an empty string gives one empty part), no
   * part contains the separator, and joining the parts gives the string back.
   */
  function Split(s: string, sep: char): (parts: seq<string>)
    ensures |parts| >= 1
    ensures forall i :: 0 <= i < |parts| ==> sep !in parts[i]
    ensures Join(parts, sep) == s
  {
    if s == [] then [""]
    else
      var rest := Split(s[1..], sep);
      if s[0] == sep then
        assert Join([""] + rest, sep) == [sep] + Join(rest, sep);
        [""] + rest
      else
        var r := [[s[0]] + rest[0]] + rest[1..];
        assert |rest| > 1 ==> Join(rest, sep) == rest[0] + [sep] + Join(rest[1..], sep);
        assert |rest| > 1 ==> Join(r, sep) == [s[0]] + rest[0] + [sep] + Join(rest[1..], sep) by {
          assert r[1..] == rest[1..];
        }
        assert s == [s[0]] + s[1..];
        r
  }

  /** A string without the separator is a single part. */
  lemma {:induction false} SplitNoSeparator(a: string, sep: char)
    requires sep !in a
    ensures Split(a, sep) == [a]
    decreases |a|
  {
    if a != [] {
      SplitNoSeparator(a[1..], sep);
      assert [a[0]] + a[1..] == a;
    }
  }

  /** A separator-free prefix followed by the separator becomes the first part. */
  lemma {:induction false} SplitAfterPart(a: string, sep: char, b: string)
    requires sep !in a
    ensures Split(a + [sep] + b, sep) == [a] + Split(b, sep)
    decreases |a|
  {
    if a == [] {
      assert a + [sep] + b == [sep] + b;
      assert ([sep] + b)[1..] == b;
    } else {
      var s := a + [sep] + b;
      assert s[1..] == a[1..] + [sep] + b;
      SplitAfterPart(a[1..], sep, b);
      assert [a[0]] + a[1..] == a;
    }
  }

  /** Splitting undoes joining, for parts that do not contain the separator. */
  lemma {:induction false} SplitJoin(parts: seq<string>, sep: char)
    requires |parts| >= 1
    requires forall i :: 0 <= i < |parts| ==> sep !in parts[i]
    ensures Split(Join(parts, sep), sep) == parts
    decreases |parts|
  {
    if |parts| == 1 {
      SplitNoSeparator(parts[0], sep);
    } else {
      SplitJoin(parts[1..], sep);
      SplitAfterPart(parts[0], sep, Join(parts[1..], sep));
      assert [parts[0]] + parts[1..] == parts;
    }
  }

  /**
   * `Account.parse_name`: (character, account). With an '@' in the stripped
   * string the first two '@'-separated parts are returned and anything from a
   * second '@' on is dropped; without one the result is a pair of empty names.
   */
  function ParseName(displayName: string): (r: (string, string))
    ensures var t := Strip(displayName);
      if '@' in t then
        && '@' !in r.0 && '@' !in r.1
        && r.0 + "@" + r.1 <= t
        && (|t| == |r.0| + 1 + |r.1| || t[|r.0| + 1 + |r.1|] == '@')
      else r == ("", "")
  {
    var t := Strip(displayName);
    var parts := Split(t, '@');
    if |parts| >= 2 then
      PartsLayout(parts);
      (parts[0], parts[1])
    else
      assert t == parts[0];
      ("", "")
  }

  /** How the first two parts sit at the front of the joined string. */
  lemma PartsLayout(parts: seq<string>)
    requires |parts| >= 2
    ensures parts[0] + "@" + parts[1] <= Join(parts, '@')
    ensures var n := |parts[0]| + 1 + |parts[1]|;
      |Join(parts, '@')| == n || Join(parts, '@')[n] == '@'
    ensures '@' in Join(parts, '@')
  {
    var j := Join(parts, '@');
    var tail := Join(parts[1..], '@');
    assert j == parts[0] + "@" + tail;
    if |parts| > 2 {
      assert tail == parts[1] + "@" + Join(parts[2..], '@');
    }
    assert j[|parts[0]|] == '@';
  }

  /** Surrounding blanks are dropped. */
  lemma ParseNamePadded(padded: string)
    requires padded == " Kirk@Enterprise "
    ensures ParseName(padded) == ("Kirk", "Enterprise")
  {
    StripPadded(padded);
    SplitPair("Kirk", "Enterprise");
    var t := Strip(padded);
    assert Split(t, '@') == ["Kirk", "Enterprise"] by {
      assert "Kirk" + "@" + "Enterprise" == t;
    }
  }

  lemma StripPadded(padded: string)
    requires padded == " Kirk@Enterprise "
    ensures Strip(padded) == "Kirk@Enterprise"
  {
    assert LeadingSpaces(padded[1..]) == 0;
    assert LeadingSpaces(padded) == 1;
    var t := padded[1..];
    assert TrailingSpaces(t[..|t| - 1]) == 0;
    assert TrailingSpaces(t) == 1;
  }

  lemma SplitPair(a: string, b: string)
    requires '@' !in a && '@' !in b
    ensures Split(a + "@" + b, '@') == [a, b]
  {
    SplitAfterPart(a, '@', b);
    SplitNoSeparator(b, '@');
  }

  /** A display name without '@' gives two empty names. */
  lemma ParseNameWithoutAt(name: string)
    requires name == "NoAtSign"
    ensures ParseName(name) == ("", "")
  {
    assert LeadingSpaces(name) == 0;
    assert TrailingSpaces(name) == 0;
    assert Strip(name) == name;
    assert '@' !in name;
  }
}

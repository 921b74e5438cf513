/**
 * The few Python string operations the instrument layer relies on, over
 * `string` (a sequence of characters): `str.strip(chars)`, `str.split(sep)`
 * with its inverse `sep.join(fields)`, the last field of a split, and slicing
 * a prefix with `s[:n]`.
 */
module Text {

  /** The characters `str.strip()` removes when it is given no argument (Python's `str.isspace`). */
  const Whitespace: set<char> :=
    {' ', '\t', '\n', '\r', '\U{B}', '\U{C}', '\U{1C}', '\U{1D}', '\U{1E}', '\U{1F}',
     '\U{85}', '\U{A0}', '\U{1680}', '\U{2000}', '\U{2001}', '\U{2002}', '\U{2003}',
     '\U{2004}', '\U{2005}', '\U{2006}', '\U{2007}', '\U{2008}', '\U{2009}', '\U{200A}',
     '\U{2028}', '\U{2029}', '\U{202F}', '\U{205F}', '\U{3000}'}

  /** Every character of `s` is one of `cs`. */
  predicate AllIn(s: string, cs: set<char>) {
    forall k :: 0 <= k < |s| ==> s[k] in cs
  }

  /** Neither end of `s` is one of `cs`: there is nothing for a strip to remove. */
  predicate Clean(s: string, cs: set<char>) {
    s == [] || (s[0] !in cs && s[|s| - 1] !in cs)
  }

  /** `s` with its leading characters from `cs` removed (`str.lstrip`). */
  function DropLeading(s: string, cs: set<char>): string {
    if s != [] && s[0] in cs then DropLeading(s[1..], cs) else s
  }

  /** `s` with its trailing characters from `cs` removed (`str.rstrip`). */
  function DropTrailing(s: string, cs: set<char>): string {
    if s != [] && s[|s| - 1] in cs then DropTrailing(s[..|s| - 1], cs) else s
  }

  /** What `DropLeading` removes is a prefix made of `cs`, and what it keeps does not start with one. */
  lemma {:induction false} DropLeadingSpec(s: string, cs: set<char>)
    ensures var r := DropLeading(s, cs);
      |r| <= |s| && r == s[|s| - |r|..] && (r == [] || r[0] !in cs) && AllIn(s[..|s| - |r|], cs)
  {
    if s != [] && s[0] in cs {
      DropLeadingSpec(s[1..], cs);
      var r := DropLeading(s, cs);
      assert s[..|s| - |r|] == [s[0]] + s[1..][..|s| - 1 - |r|];
    }
  }

  /** What `DropTrailing` removes is a suffix made of `cs`, and what it keeps does not end with one. */
  lemma {:induction false} DropTrailingSpec(s: string, cs: set<char>)
    ensures var r := DropTrailing(s, cs);
      |r| <= |s| && r == s[..|r|] && (r == [] || r[|r| - 1] !in cs) && AllIn(s[|r|..], cs)
  {
    if s != [] && s[|s| - 1] in cs {
      DropTrailingSpec(s[..|s| - 1], cs);
      var r := DropTrailing(s, cs);
      assert s[|r|..] == s[..|s| - 1][|r|..] + [s[|s| - 1]];
    }
  }

  /** `s.strip(cs)`: `s` with the characters from `cs` removed at both ends. */
  function Strip(s: string, cs: set<char>): (r: string)
    ensures |r| <= |s|
    ensures Clean(r, cs)
  {
    var t := DropLeading(s, cs);
    DropLeadingSpec(s, cs);
    DropTrailingSpec(t, cs);
    DropTrailing(t, cs)
  }

  /** A text made only of characters from `cs` strips to nothing. */
  lemma {:induction false} StripAllPadding(s: string, cs: set<char>)
    requires AllIn(s, cs)
    ensures Strip(s, cs) == []
  {
    DropLeadingSpec(s, cs);
  }

  lemma {:induction false} DropLeadingPadding(a: string, m: string, cs: set<char>)
    requires AllIn(a, cs) && (m == [] || m[0] !in cs)
    ensures DropLeading(a + m, cs) == m
    decreases |a|
  {
    if a != [] {
      assert (a + m)[1..] == a[1..] + m;
      DropLeadingPadding(a[1..], m, cs);
    } else {
      assert a + m == m;
    }
  }

  lemma {:induction false} DropTrailingPadding(m: string, b: string, cs: set<char>)
    requires AllIn(b, cs) && (m == [] || m[|m| - 1] !in cs)
    ensures DropTrailing(m + b, cs) == m
    decreases |b|
  {
    if b != [] {
      assert (m + b)[..|m + b| - 1] == m + b[..|b| - 1];
      DropTrailingPadding(m, b[..|b| - 1], cs);
    } else {
      assert m + b == m;
    }
  }

  /**
   * Strip removes exactly the padding: surrounded by characters from `cs`, a
   * text whose ends are not in `cs` is what remains.
   */
  lemma {:induction false} StripPadding(a: string, m: string, b: string, cs: set<char>)
    requires AllIn(a, cs) && AllIn(b, cs)
    requires m != [] && Clean(m, cs)
    ensures Strip(a + m + b, cs) == m
  {
    assert a + m + b == a + (m + b);
    DropLeadingPadding(a, m + b, cs);
    DropTrailingPadding(m, b, cs);
  }

  /** A text with nothing to strip is left alone, so stripping twice is stripping once. */
  lemma {:induction false} StripClean(s: string, cs: set<char>)
    ensures Clean(s, cs) ==> Strip(s, cs) == s
  {
    if s != [] && Clean(s, cs) {
      assert [] + s + [] == s;
      StripPadding([], s, [], cs);
    }
  }

  lemma {:induction false} StripIdempotent(s: string, cs: set<char>)
    ensures Strip(Strip(s, cs), cs) == Strip(s, cs)
  {
    StripClean(Strip(s, cs), cs);
  }

  /** `s.split(sep)`: the fields between occurrences of `sep`; never an empty list. */
  function Split(s: string, sep: char): (fields: seq<string>)
    ensures |fields| >= 1
    ensures forall i :: 0 <= i < |fields| ==> sep !in fields[i]
    ensures sep !in s ==> fields == [s]
    ensures sep in s ==> |fields| > 1
  {
    if s == [] then
      [[]]
    else
      var rest := Split(s[1..], sep);
      assert s == [s[0]] + s[1..];
      if s[0] == sep then [[]] + rest else [[s[0]] + rest[0]] + rest[1..]
  }

  /** `sep.join(fields)`. */
  function Join(fields: seq<string>, sep: char): string
    requires |fields| >= 1
  {
    if |fields| == 1 then fields[0] else fields[0] + [sep] + Join(fields[1..], sep)
  }

  /** Joining the fields of a split gives back the text. */
  lemma {:induction false} JoinSplit(s: string, sep: char)
    ensures Join(Split(s, sep), sep) == s
  {
    if s != [] {
      var rest := Split(s[1..], sep);
      JoinSplit(s[1..], sep);
      if s[0] == sep {
        assert Split(s, sep)[1..] == rest;
      } else {
        var fields := Split(s, sep);
        assert fields[1..] == rest[1..];
        if |rest| > 1 {
          assert Join(rest, sep) == rest[0] + [sep] + Join(rest[1..], sep);
        }
      }
    }
  }

  lemma {:induction false} SplitAfterField(a: string, t: string, sep: char)
    requires sep !in a
    ensures Split(a + t, sep) == [a + Split(t, sep)[0]] + Split(t, sep)[1..]
    decreases |a|
  {
    var fields := Split(t, sep);
    if a != [] {
      var s, rest := a + t, a[1..] + t;
      assert s[1..] == rest;
      assert a[0] in a;
      SplitAfterField(a[1..], t, sep);
      var inner := Split(rest, sep);
      assert inner == [a[1..] + fields[0]] + fields[1..];
      assert Split(s, sep) == [[a[0]] + inner[0]] + inner[1..];
      assert [a[0]] + (a[1..] + fields[0]) == a + fields[0];
    } else {
      assert a + t == t && a + fields[0] == fields[0];
      assert fields == [fields[0]] + fields[1..];
    }
  }

  /** Splitting a join of separator-free fields gives back the fields. */
  lemma {:induction false} SplitJoin(fields: seq<string>, sep: char)
    requires |fields| >= 1
    requires forall i :: 0 <= i < |fields| ==> sep !in fields[i]
    ensures Split(Join(fields, sep), sep) == fields
  {
    if |fields| == 1 {
      assert fields[0] + [] == fields[0];
      SplitAfterField(fields[0], [], sep);
    } else {
      var tail := Join(fields[1..], sep);
      SplitJoin(fields[1..], sep);
      assert fields[0] + [sep] + tail == fields[0] + ([sep] + tail);
      SplitAfterField(fields[0], [sep] + tail, sep);
      assert ([sep] + tail)[1..] == tail;
      assert Split([sep] + tail, sep) == [[]] + Split(tail, sep);
      assert fields[0] + [] == fields[0];
      assert fields == [fields[0]] + fields[1..];
    }
  }

  /** `s.split(sep)[-1]`: what follows the last `sep`, or all of `s` when there is none. */
  function LastField(s: string, sep: char): (f: string)
    ensures sep !in s ==> f == s
  {
    var fields := Split(s, sep);
    fields[|fields| - 1]
  }

  /**
   * The last field is the tail of the text after its last separator: it holds
   * no separator, is a suffix of the text, and is either the whole text or
   * preceded by a separator.
   */
  lemma {:induction false} LastFieldIsTail(s: string, sep: char)
    ensures var f := LastField(s, sep);
      && |f| <= |s| && f == s[|s| - |f|..] && sep !in f
      && (sep in s <==> |f| < |s|)
      && (|f| < |s| ==> s[|s| - |f| - 1] == sep)
  {
    if s != [] {
      var rest := Split(s[1..], sep);
      var f := LastField(s, sep);
      assert sep in s <==> s[0] == sep || sep in s[1..] by {
        assert s == [s[0]] + s[1..];
      }
      if s[0] == sep || |rest| > 1 {
        LastFieldIsTail(s[1..], sep);
        assert f == LastField(s[1..], sep);
        assert s[1..][|s| - 1 - |f|..] == s[|s| - |f|..];
        if |f| < |s| - 1 {
          assert s[1..][|s| - 1 - |f| - 1] == sep;
        }
      } else {
        assert rest == [s[1..]];
        assert f == s;
      }
    }
  }

  /** `s` is `f`, or ends with `sep` followed by `f`. */
  predicate EndsWithField(s: string, sep: char, f: string) {
    s == f || (|s| > |f| && s[|s| - |f| - 1..] == [sep] + f)
  }

  /**
   * The last field is a given separator-free `f` exactly when the text is `f`
   * or ends with the separator followed by `f`.
   */
  lemma {:induction false} LastFieldEquals(s: string, sep: char, f: string)
    requires sep !in f
    ensures LastField(s, sep) == f <==> EndsWithField(s, sep, f)
  {
    var g := LastField(s, sep);
    LastFieldIsTail(s, sep);
    if |s| > |f| && s[|s| - |f| - 1..] == [sep] + f {
      assert s[|s| - |f| - 1] == sep;
      assert s[|s| - |f|..] == f;
    }
  }

  /** `s[:n]`: the first `n` characters, or all of `s` when it is shorter. */
  function Prefix(s: string, n: nat): (p: string)
    ensures |p| <= n && |p| <= |s| && p == s[..|p|]
    ensures |p| == n || p == s
  {
    if |s| <= n then s else s[..n]
  }
}

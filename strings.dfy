/**
 * Text and path helpers with the semantics of the Rust standard library calls the
 * package manager makes: `str::split`, `str::replace`, `str::strip_prefix`,
 * `eq_ignore_ascii_case`, `Path::join`, `Path::file_stem` and `Path::extension`.
 */
module Strings {
  import opened Wrappers

  // ---------------------------------------------------------------------------
  // str::split on a single character
  // ---------------------------------------------------------------------------

  /** The pieces of `s` between occurrences of `sep`, as `s.split(sep)` yields them. */
  function Split(s: string, sep: char): (r: seq<string>)
    ensures |r| >= 1
    ensures forall i :: 0 <= i < |r| ==> sep !in r[i]
    decreases |s|
  {
    if |s| == 0 then [""]
    else if s[0] == sep then [""] + Split(s[1..], sep)
    else
      var rest := Split(s[1..], sep);
      [[s[0]] + rest[0]] + rest[1..]
  }

  /** The pieces of `parts` glued back together with `sep` between neighbours. */
  function JoinWith(parts: seq<string>, sep: char): string
    requires |parts| >= 1
    decreases |parts|
  {
    if |parts| == 1 then parts[0] else parts[0] + [sep] + JoinWith(parts[1..], sep)
  }

  /** Splitting `a + t` where `a` holds no separator glues `a` onto the first piece of `t`. */
  lemma {:induction false} SplitPrefix(a: string, t: string, sep: char)
    requires sep !in a
    ensures Split(a + t, sep) == [a + Split(t, sep)[0]] + Split(t, sep)[1..]
    decreases |a|
  {
    if |a| == 0 {
      assert a + t == t;
      assert a + Split(t, sep)[0] == Split(t, sep)[0];
      assert Split(t, sep) == [Split(t, sep)[0]] + Split(t, sep)[1..];
    } else {
      assert a + t == [a[0]] + (a[1..] + t);
      assert (a + t)[1..] == a[1..] + t;
      SplitPrefix(a[1..], t, sep);
      assert [a[0]] + (a[1..] + Split(t, sep)[0]) == a + Split(t, sep)[0];
    }
  }

  /** Joining pieces that hold no separator and splitting again gives the pieces back. */
  lemma {:induction false} SplitJoinWith(parts: seq<string>, sep: char)
    requires |parts| >= 1
    requires forall i :: 0 <= i < |parts| ==> sep !in parts[i]
    ensures Split(JoinWith(parts, sep), sep) == parts
    decreases |parts|
  {
    if |parts| == 1 {
      SplitPrefix(parts[0], "", sep);
      assert parts[0] + "" == parts[0];
    } else {
      var rest := JoinWith(parts[1..], sep);
      SplitJoinWith(parts[1..], sep);
      assert parts[0] + [sep] + rest == parts[0] + ([sep] + rest);
      SplitPrefix(parts[0], [sep] + rest, sep);
      assert ([sep] + rest)[1..] == rest;
      assert Split([sep] + rest, sep) == [""] + Split(rest, sep);
      assert parts[0] + "" == parts[0];
      assert parts == [parts[0]] + parts[1..];
    }
  }

  /** Gluing a character onto the first piece glues it onto the front of the joined text. */
  lemma JoinWithConsHead(c: char, parts: seq<string>, sep: char)
    requires |parts| >= 1
    ensures JoinWith([[c] + parts[0]] + parts[1..], sep) == [c] + JoinWith(parts, sep)
  {
    var glued := [[c] + parts[0]] + parts[1..];
    assert glued[1..] == parts[1..];
  }

  /** Splitting and joining again with the same separator gives the text back. */
  lemma {:induction false} JoinWithSplit(s: string, sep: char)
    ensures JoinWith(Split(s, sep), sep) == s
    decreases |s|
  {
    if |s| > 0 {
      JoinWithSplit(s[1..], sep);
      var rest := Split(s[1..], sep);
      if s[0] == sep {
        assert ([""] + rest)[1..] == rest;
        assert [s[0]] + s[1..] == s;
      } else {
        JoinWithConsHead(s[0], rest, sep);
        assert [s[0]] + s[1..] == s;
      }
    }
  }

  // ---------------------------------------------------------------------------
  // str::replace
  // ---------------------------------------------------------------------------

  /**
   * `s.replace(from, to)`: every non-overlapping occurrence of `from`, scanned left to
   * right, becomes `to`. With an empty pattern Rust matches at every character
   * boundary, so `to` is put before every character and at the end.
   */
  function ReplaceAll(s: string, from: string, to: string): string
    decreases |s|
  {
    if from == [] then
      (if s == [] then to else to + [s[0]] + ReplaceAll(s[1..], from, to))
    else if from <= s then to + ReplaceAll(s[|from|..], from, to)
    else if s == [] then []
    else [s[0]] + ReplaceAll(s[1..], from, to)
  }

  /** `from` starts at no position of `s`. */
  predicate NoOccurrence(from: string, s: string) {
    forall i | 0 <= i <= |s| :: !(from <= s[i..])
  }

  /** Text in which the pattern never occurs is left as it is. */
  lemma {:induction false} ReplaceAllNoOccurrence(s: string, from: string, to: string)
    requires from != []
    requires NoOccurrence(from, s)
    ensures ReplaceAll(s, from, to) == s
    decreases |s|
  {
    assert s[0..] == s;
    if s != [] {
      assert forall i | 0 <= i <= |s[1..]| :: s[1..][i..] == s[i + 1..];
      ReplaceAllNoOccurrence(s[1..], from, to);
    }
  }

  /** A leading occurrence is replaced, and the scan resumes right after it. */
  lemma ReplaceAllLeading(from: string, t: string, to: string)
    requires from != []
    ensures ReplaceAll(from + t, from, to) == to + ReplaceAll(t, from, to)
  {
    assert (from + t)[|from|..] == t;
  }

  /**
   * Relocating a path prefix: when a text is `oldPrefix + rest` and `oldPrefix` does
   * not occur in `rest`, replacing `oldPrefix` by `newPrefix` yields `newPrefix + rest`.
   */
  lemma RelocatePrefix(oldPrefix: string, rest: string, newPrefix: string)
    requires oldPrefix != []
    requires NoOccurrence(oldPrefix, rest)
    ensures ReplaceAll(oldPrefix + rest, oldPrefix, newPrefix) == newPrefix + rest
  {
    ReplaceAllLeading(oldPrefix, rest, newPrefix);
    ReplaceAllNoOccurrence(rest, oldPrefix, newPrefix);
  }

  // ---------------------------------------------------------------------------
  // ASCII case folding and decimal rendering
  // ---------------------------------------------------------------------------

  function AsciiLower(c: char): char {
    if 'A' <= c <= 'Z' then (c as int + 32) as char else c
  }

  /** `a.eq_ignore_ascii_case(b)`. */
  predicate EqIgnoreAsciiCase(a: string, b: string) {
    |a| == |b| && forall i :: 0 <= i < |a| ==> AsciiLower(a[i]) == AsciiLower(b[i])
  }

  function DigitChar(d: nat): char
    requires d < 10
  {
    ('0' as int + d) as char
  }

  /** Decimal digits of `n`, as Lua's tostring writes an integer. */
  function NatToDecimal(n: nat): (r: string)
    ensures |r| >= 1
    decreases n
  {
    if n < 10 then [DigitChar(n)] else NatToDecimal(n / 10) + [DigitChar(n % 10)]
  }

  function IntToDecimal(i: int): (r: string)
    ensures |r| >= 1
  {
    if i < 0 then "-" + NatToDecimal(-i) else NatToDecimal(i)
  }

  // ---------------------------------------------------------------------------
  // Paths (std::path on Unix)
  // ---------------------------------------------------------------------------

  /**
   * `Path::new(base).join(p)`: an absolute `p` replaces the base; otherwise a `/` is
   * inserted unless the base is empty or already ends with one.
   */
  function Join(base: string, p: string): (r: string)
    ensures |p| > 0 && p[0] == '/' ==> r == p
  {
    if |p| > 0 && p[0] == '/' then p
    else if |base| == 0 || base[|base| - 1] == '/' then base + p
    else base + "/" + p
  }

  /**
   * A joined path ends with the joined component, and a relative component
   * extends the base by at most one separator.
   */
  lemma JoinEndsWith(base: string, p: string)
    ensures |p| <= |Join(base, p)| && Join(base, p)[|Join(base, p)| - |p|..] == p
    ensures !(|p| > 0 && p[0] == '/') ==> base <= Join(base, p) && |Join(base, p)| <= |base| + 1 + |p|
  {
    var r := Join(base, p);
    if !(|p| > 0 && p[0] == '/') {
      var pre := if |base| == 0 || base[|base| - 1] == '/' then base else base + "/";
      assert r == pre + p;
      assert r[|pre|..] == p;
      assert r[..|base|] == base;
    }
  }

  /** Under one base, distinct relative components give distinct paths. */
  lemma JoinInjective(base: string, a: string, b: string)
    requires !(|a| > 0 && a[0] == '/') && !(|b| > 0 && b[0] == '/')
    requires Join(base, a) == Join(base, b)
    ensures a == b
  {
    var pre := if |base| == 0 || base[|base| - 1] == '/' then base else base + "/";
    assert Join(base, a) == pre + a && Join(base, b) == pre + b;
    assert (pre + a)[|pre|..] == a && (pre + b)[|pre|..] == b;
  }

  lemma {:induction false} LastIndexAfter(a: string, b: string, c: char)
    requires c !in b
    ensures LastIndex(a + [c] + b, c) == |a|
    decreases |b|
  {
    var s := a + [c] + b;
    if b != [] {
      var b' := b[..|b| - 1];
      assert s[..|s| - 1] == a + [c] + b';
      assert s[|s| - 1] == b[|b| - 1];
      LastIndexAfter(a, b', c);
    }
  }

  /**
   * A plain component joined under a non-empty base is the last component of the
   * result: the last `/` sits just before it.
   */
  lemma JoinLastComponent(base: string, p: string)
    requires base != [] && '/' !in p
    ensures LastIndex(Join(base, p), '/') == |Join(base, p)| - |p| - 1
  {
    var pre := if base[|base| - 1] == '/' then base[..|base| - 1] else base;
    assert Join(base, p) == pre + ['/'] + p by {
      if base[|base| - 1] == '/' {
        assert base == base[..|base| - 1] + ['/'];
      }
    }
    LastIndexAfter(pre, p, '/');
  }
  /**
   * A plain component joined under any base: the result extends a non-empty base,
   * is not empty, and has the component as its last component.
   */
  lemma JoinPlain(base: string, p: string)
    requires p != [] && '/' !in p
    ensures base != [] ==> base <= Join(base, p)
    ensures Join(base, p) != [] && Join(base, p)[|Join(base, p)| - 1] != '/'
    ensures Join(base, p)[LastIndex(Join(base, p), '/') + 1..] == p
  {
    assert p[0] in p && p[|p| - 1] in p;
    JoinEndsWith(base, p);
    var r := Join(base, p);
    assert r[|r| - 1] == p[|p| - 1];
    if base != [] {
      JoinLastComponent(base, p);
    }
  }


  /** Index of the last `c` in `s`, or -1 when there is none. */
  function LastIndex(s: string, c: char): (r: int)
    ensures -1 <= r < |s|
    ensures r >= 0 ==> s[r] == c && c !in s[r + 1..]
    ensures r == -1 ==> c !in s
    decreases |s|
  {
    if |s| == 0 then -1
    else if s[|s| - 1] == c then |s| - 1
    else
      assert s == s[..|s| - 1] + [s[|s| - 1]];
      LastIndex(s[..|s| - 1], c)
  }

  /**
   * `Path::file_stem` of a file name: the name up to its last `.`, or the whole
   * name when it has no `.` or its only `.` leads.
   */
  function FileStem(name: string): string {
    var i := LastIndex(name, '.');
    if i <= 0 then name else name[..i]
  }

  /** `Path::extension` of a file name: the text after its last `.`, when that dot does not lead. */
  function Extension(name: string): Option<string> {
    var i := LastIndex(name, '.');
    if i <= 0 then None else Some(name[i + 1..])
  }

  /** Stem and extension put back together give the name. */
  lemma StemExtension(name: string)
    ensures Extension(name).Some? ==> name == FileStem(name) + "." + Extension(name).value
    ensures Extension(name).None? ==> FileStem(name) == name
  {
    var i := LastIndex(name, '.');
    if i > 0 {
      assert name == name[..i] + [name[i]] + name[i + 1..];
    }
  }
}

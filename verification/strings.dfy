/** The string operations the resolver relies on: `downcase`, the regular
    expression class `[;,\s]`, and `File.extname`. */
module Strings {

  predicate IsUpper(c: char) {
    'A' <= c <= 'Z'
  }

  /** Lower-cases one ASCII letter; every other character is returned as is. */
  function Lower(c: char): (d: char)
    ensures !IsUpper(d)
    ensures !IsUpper(c) ==> d == c
    ensures IsUpper(c) ==> d as int == c as int + 32
  {
    if IsUpper(c) then (c as int - 'A' as int + 'a' as int) as char else c
  }

  /** No upper-case letter anywhere. */
  predicate IsLowercase(s: string) {
    forall i :: 0 <= i < |s| ==> !IsUpper(s[i])
  }

  /** `String#downcase`, restricted to ASCII letters. */
  function Downcase(s: string): (r: string)
    ensures |r| == |s|
    ensures IsLowercase(r)
    ensures forall i :: 0 <= i < |s| ==> r[i] == Lower(s[i])
  {
    seq(|s|, i requires 0 <= i < |s| => Lower(s[i]))
  }

  /** Lower-casing a lower-case string changes nothing, so `downcase` is idempotent. */
  lemma DowncaseOfLowercase(s: string)
    requires IsLowercase(s)
    ensures Downcase(s) == s
  {
  }

  lemma DowncaseIdempotent(s: string)
    ensures Downcase(Downcase(s)) == Downcase(s)
  {
    DowncaseOfLowercase(Downcase(s));
  }

  /** Ruby's `\s`: space, tab, line feed, vertical tab, form feed, carriage return. */
  predicate IsSpace(c: char) {
    c == ' ' || c == '\t' || c == '\n' || c as int == 0x0B || c as int == 0x0C || c == '\r'
  }

  /** The character class `[;,\s]` that ends a media type. */
  predicate IsParamSeparator(c: char) {
    c == ';' || c == ',' || IsSpace(c)
  }

  /** Index of the first `[;,\s]` in `s`, or `|s|` when there is none. */
  function FirstSeparator(s: string): (k: nat)
    ensures k <= |s|
    ensures forall i :: 0 <= i < k ==> !IsParamSeparator(s[i])
    ensures k < |s| ==> IsParamSeparator(s[k])
  {
    if |s| == 0 || IsParamSeparator(s[0]) then 0
    else 1 + FirstSeparator(s[1..])
  }

  /** The first separator is the only index before which there is none. */
  lemma FirstSeparatorAt(s: string, k: nat)
    requires k <= |s|
    requires forall i :: 0 <= i < k ==> !IsParamSeparator(s[i])
    requires k == |s| || IsParamSeparator(s[k])
    ensures FirstSeparator(s) == k
  {
  }

  /** Index of the last occurrence of `c` in `s`, or -1 when there is none. */
  function LastIndexOf(s: string, c: char): (k: int)
    ensures -1 <= k < |s|
    ensures k == -1 <==> c !in s
    ensures 0 <= k ==> s[k] == c && c !in s[k + 1..]
  {
    if |s| == 0 then -1
    else if s[|s| - 1] == c then |s| - 1
    else
      assert s == s[..|s| - 1] + [s[|s| - 1]];
      LastIndexOf(s[..|s| - 1], c)
  }

  /** Drops every leading `.` (a dot-file's own dot does not start an extension). */
  function SkipLeadingDots(s: string): (r: string)
    ensures |r| <= |s| && r == s[|s| - |r|..]
    ensures |r| == 0 || r[0] != '.'
    ensures forall i :: 0 <= i < |s| - |r| ==> s[i] == '.'
  {
    if |s| > 0 && s[0] == '.' then SkipLeadingDots(s[1..]) else s
  }

  /** The last path component: everything after the last `/`. */
  function Basename(path: string): (b: string)
    ensures '/' !in b
    ensures |b| <= |path| && b == path[|path| - |b|..]
  {
    path[LastIndexOf(path, '/') + 1..]
  }

  /** The suffix from the last `.` of `b`, unless that dot ends `b`. */
  function LastDotSuffix(b: string): (r: string)
    ensures r == "" || (2 <= |r| && r[0] == '.' && '.' !in r[1..])
    ensures |r| <= |b| && r == b[|b| - |r|..]
  {
    var k := LastIndexOf(b, '.');
    if 0 <= k < |b| - 1 then b[k..] else ""
  }

  /** The path without its trailing `/` characters. */
  function StripTrailingSlashes(path: string): (r: string)
    ensures |r| <= |path| && r == path[..|r|]
    ensures |r| == 0 || r[|r| - 1] != '/'
    ensures forall i :: |r| <= i < |path| ==> path[i] == '/'
  {
    if |path| > 0 && path[|path| - 1] == '/' then StripTrailingSlashes(path[..|path| - 1])
    else path
  }

  /** A simplified `File.extname`: the last `.`-suffix of the basename, dot
      included, ignoring trailing `/`s of the path, the basename's leading
      dots and a trailing dot. */
  function ExtName(path: string): (r: string)
    ensures r == "" || (2 <= |r| && r[0] == '.' && '.' !in r[1..])
  {
    LastDotSuffix(SkipLeadingDots(Basename(StripTrailingSlashes(path))))
  }

  /** Trailing `/`s do not change the extension: `a.png/` has `.png`. */
  lemma ExtNameIgnoresTrailingSlash(path: string)
    ensures ExtName(path + "/") == ExtName(path)
  {
  }

  /** Appending text without `c` does not move the last `c`. */
  lemma {:induction false} LastIndexOfAppend(a: string, b: string, c: char)
    requires c !in b
    ensures LastIndexOf(a + b, c) == LastIndexOf(a, c)
  {
    if |b| > 0 {
      var b' := b[..|b| - 1];
      assert (a + b)[..|a + b| - 1] == a + b';
      LastIndexOfAppend(a, b', c);
    } else {
      assert a + b == a;
    }
  }

  /** Leading dots are skipped only up to the first other character. */
  lemma {:induction false} SkipLeadingDotsAppend(a: string, b: string)
    requires exists i :: 0 <= i < |a| && a[i] != '.'
    ensures SkipLeadingDots(a + b) == SkipLeadingDots(a) + b
    ensures |SkipLeadingDots(a)| > 0
  {
    if a[0] == '.' {
      assert (a + b)[1..] == a[1..] + b;
      var i :| 0 <= i < |a| && a[i] != '.';
      assert a[1..][i - 1] != '.';
      SkipLeadingDotsAppend(a[1..], b);
    }
  }

  /** Text without `/` appended to a path extends its basename. */
  lemma BasenameAppend(path: string, tail: string)
    requires '/' !in tail
    ensures Basename(path + tail) == Basename(path) + tail
  {
    LastIndexOfAppend(path, tail, '/');
    var k := LastIndexOf(path, '/');
    assert (path + tail)[k + 1..] == path[k + 1..] + tail;
  }

  /** The last dot of `a.ext` is the one before `ext`, when `ext` has none. */
  lemma LastDotSuffixOf(a: string, ext: string)
    requires |ext| > 0 && '.' !in ext
    ensures LastDotSuffix(a + ("." + ext)) == "." + ext
  {
    var b := a + ("." + ext);
    assert b == (a + ".") + ext;
    LastIndexOfAppend(a + ".", ext, '.');
    assert (a + ".")[..|a + "."| - 1] == a;
    assert LastIndexOf(b, '.') == |a|;
    assert b[|a|..] == "." + ext;
  }

  /** A name `base.ext`, whose base does not end in `.` or `/` and whose
      extension holds neither, has the extension `.ext`. */
  lemma ExtNameOfName(base: string, ext: string)
    requires |base| > 0 && base[|base| - 1] != '.' && base[|base| - 1] != '/'
    requires |ext| > 0 && '.' !in ext && '/' !in ext
    ensures ExtName(base + "." + ext) == "." + ext
  {
    var path := base + "." + ext;
    var dotExt := "." + ext;
    assert path == base + dotExt;
    assert path[|path| - 1] == ext[|ext| - 1];
    assert StripTrailingSlashes(path) == path;
    BasenameAppend(base, dotExt);
    var bb := Basename(base);
    BasenameNonEmpty(base);
    SkipLeadingDotsAppend(bb, dotExt);
    var sb := SkipLeadingDots(bb);
    assert SkipLeadingDots(Basename(path)) == sb + dotExt;
    LastDotSuffixOf(sb, ext);
  }

  lemma BasenameNonEmpty(base: string)
    requires |base| > 0 && base[|base| - 1] != '.' && base[|base| - 1] != '/'
    ensures |Basename(base)| > 0 && Basename(base)[|Basename(base)| - 1] != '.'
    ensures exists i :: 0 <= i < |Basename(base)| && Basename(base)[i] != '.'
  {
    var k := LastIndexOf(base, '/');
    assert k < |base| - 1;
    var bb := Basename(base);
    assert bb[|bb| - 1] == base[|base| - 1];
  }
}

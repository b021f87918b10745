/**
 * The JavaScript string primitives the source relies on, with the semantics
 * of the ECMAScript built-ins: `split` on one character, `join`, `endsWith`,
 * `includes`, `replace` with a string pattern (first occurrence only),
 * `toLowerCase`, `trim`, and Node's `path.basename`.
 */
module JsString {

  /** `s.split(sep)` for a one-character separator: never empty. */
  function Split(s: string, sep: char): (parts: seq<string>)
    ensures |parts| >= 1
    ensures forall i :: 0 <= i < |parts| ==> sep !in parts[i]
    decreases |s|
  {
    if |s| == 0 then [""]
    else
      var rest := Split(s[1..], sep);
      if s[0] == sep then [""] + rest
      else [[s[0]] + rest[0]] + rest[1..]
  }

  /** `parts.join(sep)`. */
  function Join(parts: seq<string>, sep: char): string
  {
    if |parts| == 0 then ""
    else if |parts| == 1 then parts[0]
    else parts[0] + [sep] + Join(parts[1..], sep)
  }

  /** Joining what was split gives the original string back. */
  lemma {:induction false} JoinSplit(s: string, sep: char)
    ensures Join(Split(s, sep), sep) == s
    decreases |s|
  {
    if |s| > 0 {
      var rest := Split(s[1..], sep);
      JoinSplit(s[1..], sep);
      if s[0] == sep {
        assert Split(s, sep) == [""] + rest;
        assert ([""] + rest)[1..] == rest;
      } else {
        var parts := Split(s, sep);
        assert parts[0] == [s[0]] + rest[0];
        assert parts[1..] == rest[1..];
        if |rest| == 1 {
          assert Join(rest, sep) == rest[0];
        } else {
          assert Join(rest, sep) == rest[0] + [sep] + Join(rest[1..], sep);
        }
      }
    }
  }

  /** `split` yields a single part exactly when the separator does not occur. */
  lemma {:induction false} SplitSingle(s: string, sep: char)
    ensures |Split(s, sep)| == 1 <==> sep !in s
    ensures sep !in s ==> Split(s, sep) == [s]
    decreases |s|
  {
    if |s| > 0 {
      SplitSingle(s[1..], sep);
      assert s == [s[0]] + s[1..];
    }
  }

  /** A separator-free part followed by the separator splits off as the first part. */
  lemma {:induction false} SplitAfter(u: string, rest: string, sep: char)
    requires sep !in u
    ensures Split(u + [sep] + rest, sep) == [u] + Split(rest, sep)
    decreases |u|
  {
    var s := u + [sep] + rest;
    if |u| == 0 {
      assert s[1..] == rest;
    } else {
      SplitAfter(u[1..], rest, sep);
      assert s[1..] == u[1..] + [sep] + rest;
      assert [u[0]] + u[1..] == u;
    }
  }

  /** Two separator-free strings joined by the separator split back into the two. */
  lemma SplitTwo(u: string, r: string, sep: char)
    requires sep !in u && sep !in r
    ensures Split(u + [sep] + r, sep) == [u, r]
  {
    SplitAfter(u, r, sep);
    SplitSingle(r, sep);
  }

  /** Joining at least two parts puts the separator after the first part. */
  lemma JoinCons(parts: seq<string>, sep: char)
    requires |parts| >= 2
    ensures Join(parts, sep) == parts[0] + [sep] + Join(parts[1..], sep)
  {
  }

  /** `s.startsWith(pre)`. */
  predicate StartsWith(s: string, pre: string)
  {
    |pre| <= |s| && s[..|pre|] == pre
  }

  /** `s.endsWith(suf)`. */
  predicate EndsWith(s: string, suf: string)
  {
    |suf| <= |s| && s[|s| - |suf|..] == suf
  }

  /** `t` occurs in `s` at position `j`. */
  predicate OccursAt(s: string, t: string, j: int)
  {
    0 <= j && j + |t| <= |s| && s[j..j + |t|] == t
  }

  /** The first position at or after `k` where `t` occurs in `s`, or -1. */
  function IndexFrom(s: string, t: string, k: nat): (i: int)
    ensures i == -1 || (k <= i && OccursAt(s, t, i))
    ensures i == -1 ==> forall j :: k <= j ==> !OccursAt(s, t, j)
    ensures i >= 0 ==> forall j :: k <= j < i ==> !OccursAt(s, t, j)
    decreases |s| - k
  {
    if k + |t| > |s| then -1
    else if s[k..k + |t|] == t then k
    else IndexFrom(s, t, k + 1)
  }

  /** `s.indexOf(t)`: the first occurrence of `t` in `s`, or -1. */
  function IndexOf(s: string, t: string): (i: int)
    ensures i == -1 || OccursAt(s, t, i)
    ensures i == -1 <==> forall j :: !OccursAt(s, t, j)
    ensures forall j :: 0 <= j < i ==> !OccursAt(s, t, j)
  {
    IndexFrom(s, t, 0)
  }

  /** `s.includes(t)`. */
  predicate Includes(s: string, t: string)
  {
    IndexOf(s, t) >= 0
  }

  /** `s.replace(pat, rep)` with a string pattern: only the first occurrence. */
  function ReplaceFirst(s: string, pat: string, rep: string): (r: string)
    ensures !Includes(s, pat) ==> r == s
    ensures Includes(s, pat) ==>
              var i := IndexOf(s, pat);
              r == s[..i] + rep + s[i + |pat|..]
  {
    var i := IndexOf(s, pat);
    if i < 0 then s else s[..i] + rep + s[i + |pat|..]
  }

  /** The file-extension string the source strips and appends. */
  const Md: string := ".md"

  /**
   * Removing the first ".md" from `name + ".md"` gives `name` back whenever
   * `name` itself holds no ".md": ".md" cannot overlap itself, so its first
   * occurrence is the appended one.
   */
  lemma StripMdAppended(name: string)
    requires !Includes(name, Md)
    ensures ReplaceFirst(name + Md, Md, "") == name
  {
    var s := name + Md;
    assert OccursAt(s, Md, |name|);
    forall j | 0 <= j < |name| ensures !OccursAt(s, Md, j) {
      if j + 3 <= |name| {
        assert IndexOf(name, Md) == -1;
        assert !OccursAt(name, Md, j);
        assert s[j..j + 3] == name[j..j + 3];
        assert !OccursAt(s, Md, j);
      } else if j + 2 == |name| {
        assert s[j + 2] == '.' && s[j..j + 3][2] == s[j + 2];
      } else if j + 1 == |name| {
        assert s[j + 1] == '.' && s[j..j + 3][1] == s[j + 1];
      }
    }
    var i := IndexOf(s, Md);
    assert i == |name|;
    assert s[..i] == name;
  }

  /** An upper-case ASCII letter. */
  predicate IsUpper(c: char)
  {
    'A' <= c <= 'Z'
  }

  /** `toLowerCase`, on the ASCII letters. */
  function LowerChar(c: char): (d: char)
    ensures !IsUpper(d)
    ensures !IsUpper(c) ==> d == c
  {
    if IsUpper(c) then (c as int + 32) as char else c
  }

  /** `s.toLowerCase()`, on the ASCII letters. */
  function ToLower(s: string): (r: string)
    ensures |r| == |s|
    ensures forall i :: 0 <= i < |s| ==> r[i] == LowerChar(s[i])
  {
    if |s| == 0 then "" else [LowerChar(s[0])] + ToLower(s[1..])
  }

  /** Lower-casing twice is lower-casing once. */
  lemma ToLowerIdempotent(s: string)
    ensures ToLower(ToLower(s)) == ToLower(s)
  {
    var once := ToLower(s);
    var twice := ToLower(once);
    assert forall i :: 0 <= i < |s| ==> twice[i] == once[i];
  }

  /** A character that `trim` and the regular-expression class `\s` remove. */
  predicate IsSpace(c: char)
  {
    c == ' ' || c == '\t' || c == '\n' || c == '\r' || c == '\U{000B}' || c == '\U{000C}'
    || c == '\U{00A0}' || c == '\U{1680}' || ('\U{2000}' <= c <= '\U{200A}')
    || c == '\U{2028}' || c == '\U{2029}' || c == '\U{202F}' || c == '\U{205F}'
    || c == '\U{3000}' || c == '\U{FEFF}'
  }

  /** Drops leading white space. */
  function TrimStart(s: string): (r: string)
    ensures |r| <= |s| && r == s[|s| - |r|..]
    ensures |r| > 0 ==> !IsSpace(r[0])
  {
    if |s| > 0 && IsSpace(s[0]) then TrimStart(s[1..]) else s
  }

  /** Drops trailing white space. */
  function TrimEnd(s: string): (r: string)
    ensures |r| <= |s| && r == s[..|r|]
    ensures |r| > 0 ==> !IsSpace(r[|r| - 1])
  {
    if |s| > 0 && IsSpace(s[|s| - 1]) then TrimEnd(s[..|s| - 1]) else s
  }

  /** Every character of `s` is white space. */
  predicate AllSpace(s: string)
  {
    forall i :: 0 <= i < |s| ==> IsSpace(s[i])
  }

  /** Lower-casing works character by character, so it distributes over concatenation. */
  lemma ToLowerAppend(a: string, b: string)
    ensures ToLower(a + b) == ToLower(a) + ToLower(b)
  {
    var l := ToLower(a + b);
    forall i | 0 <= i < |a + b| ensures l[i] == (ToLower(a) + ToLower(b))[i] {
      if i < |a| {
        assert (a + b)[i] == a[i];
      } else {
        assert (a + b)[i] == b[i - |a|];
      }
    }
  }

  /** White space has no upper case. */
  lemma ToLowerSpaces(s: string)
    requires AllSpace(s)
    ensures ToLower(s) == s
  {
    forall i | 0 <= i < |s| ensures ToLower(s)[i] == s[i] {
      assert IsSpace(s[i]) && !IsUpper(s[i]);
    }
  }

  /** Lower-casing a word padded with white space lower-cases the word alone. */
  lemma ToLowerPadded(pre: string, w: string, post: string)
    requires AllSpace(pre) && AllSpace(post)
    ensures ToLower(pre + w + post) == pre + (ToLower(w) + post)
  {
    ToLowerAppend(pre + w, post);
    ToLowerAppend(pre, w);
    ToLowerSpaces(pre);
    ToLowerSpaces(post);
    assert ToLower(pre + w + post) == (pre + ToLower(w)) + post;
    AppendAssoc(pre, ToLower(w), post);
  }

  lemma AppendAssoc(a: string, b: string, c: string)
    ensures (a + b) + c == a + (b + c)
  {
  }

  /** Leading white space before a non-space character is dropped, and nothing more. */
  lemma {:induction false} TrimStartSpaces(pre: string, x: string)
    requires AllSpace(pre) && |x| > 0 && !IsSpace(x[0])
    ensures TrimStart(pre + x) == x
  {
    if |pre| == 0 {
      assert pre + x == x;
    } else {
      assert (pre + x)[0] == pre[0];
      assert (pre + x)[1..] == pre[1..] + x;
      TrimStartSpaces(pre[1..], x);
    }
  }

  /** Trailing white space after a non-space character is dropped, and nothing more. */
  lemma {:induction false} TrimEndSpaces(x: string, post: string)
    requires AllSpace(post) && |x| > 0 && !IsSpace(x[|x| - 1])
    ensures TrimEnd(x + post) == x
  {
    if |post| == 0 {
      assert x + post == x;
    } else {
      var n := |x + post|;
      assert (x + post)[n - 1] == post[|post| - 1];
      assert (x + post)[..n - 1] == x + post[..|post| - 1];
      TrimEndSpaces(x, post[..|post| - 1]);
    }
  }

  /** `s.trim()`. */
  function Trim(s: string): (r: string)
    ensures |r| > 0 ==> !IsSpace(r[0]) && !IsSpace(r[|r| - 1])
  {
    TrimEnd(TrimStart(s))
  }

  /** Drops trailing '/' characters. */
  function StripTrailingSlashes(s: string): (r: string)
    ensures |r| <= |s| && r == s[..|r|]
    ensures |r| == 0 || r[|r| - 1] != '/'
  {
    if |s| > 0 && s[|s| - 1] == '/' then StripTrailingSlashes(s[..|s| - 1]) else s
  }

  /** The last element of a non-empty sequence: `Array.prototype.pop`'s result. */
  function Last<T>(s: seq<T>): T
    requires |s| > 0
  {
    s[|s| - 1]
  }

  /** Node's POSIX `path.basename(p)`: the last segment, ignoring trailing '/'. */
  function Basename(p: string): (b: string)
    ensures '/' !in b
  {
    Last(Split(StripTrailingSlashes(p), '/'))
  }

  /** The basename is what follows the last '/' of a path without trailing '/'. */
  lemma BasenameAfterSlash(dir: string, name: string)
    requires '/' !in name && name != ""
    ensures Basename(dir + "/" + name) == name
  {
    var p := dir + "/" + name;
    assert p[|p| - 1] == name[|name| - 1];
    JoinSplit(p, '/');
    SplitSingle(name, '/');
    SplitTail(dir, name, '/');
  }

  /** Splitting `dir + sep + name` ends with `name` when `name` has no separator. */
  lemma {:induction false} SplitTail(dir: string, name: string, sep: char)
    requires sep !in name
    ensures Last(Split(dir + [sep] + name, sep)) == name
    decreases |dir|
  {
    var s := dir + [sep] + name;
    if |dir| == 0 {
      assert s[1..] == name;
      SplitSingle(name, sep);
    } else {
      SplitTail(dir[1..], name, sep);
      assert s[1..] == dir[1..] + [sep] + name;
      var rest := Split(s[1..], sep);
      assert Last(rest) == name;
      if s[0] != sep {
        assert |rest| >= 2 by { SplitAfterLength(dir[1..], name, sep); }
        var parts := [[s[0]] + rest[0]] + rest[1..];
        assert Split(s, sep) == parts;
        assert parts[|parts| - 1] == rest[|rest| - 1];
      } else {
        assert Split(s, sep) == [""] + rest;
      }
    }
  }

  /** A separator in the text gives at least two parts. */
  lemma SplitAfterLength(a: string, b: string, sep: char)
    ensures |Split(a + [sep] + b, sep)| >= 2
  {
    SplitSingle(a + [sep] + b, sep);
    assert (a + [sep] + b)[|a|] == sep;
  }
}

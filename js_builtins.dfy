/**
 * The JavaScript built-ins that functions/index.js relies on, over strings
 * and arrays: String.prototype.trim, String.prototype.toLowerCase,
 * String.prototype.split with a one-character separator, and
 * Array.prototype.map and Array.prototype.filter.
 */
module JsBuiltins {

  /** The characters that String.prototype.trim removes and that the regular-expression
      class \s matches: the ECMAScript WhiteSpace and LineTerminator code points. */
  predicate IsWhitespace(c: char) {
    || c == '\t' || c == '\n' || c == '\U{000B}' || c == '\U{000C}' || c == '\r'
    || c == ' ' || c == '\U{00A0}' || c == '\U{1680}' || ('\U{2000}' <= c <= '\U{200A}')
    || c == '\U{2028}' || c == '\U{2029}' || c == '\U{202F}' || c == '\U{205F}'
    || c == '\U{3000}' || c == '\U{FEFF}'
  }

  predicate AllWhitespace(s: string) {
    forall k :: 0 <= k < |s| ==> IsWhitespace(s[k])
  }

  /** Neither the first nor the last character is white space. */
  predicate IsTrimmed(s: string) {
    s == [] || (!IsWhitespace(s[0]) && !IsWhitespace(s[|s| - 1]))
  }

  /** The length of the longest all-white-space prefix of s. */
  function LeadingWhitespace(s: string): (n: nat)
    ensures n <= |s|
    ensures forall k :: 0 <= k < n ==> IsWhitespace(s[k])
    ensures n < |s| ==> !IsWhitespace(s[n])
  {
    if s == [] || !IsWhitespace(s[0]) then 0 else 1 + LeadingWhitespace(s[1..])
  }

  /** The length of the longest all-white-space suffix of s. */
  function TrailingWhitespace(s: string): (n: nat)
    ensures n <= |s|
    ensures forall k :: |s| - n <= k < |s| ==> IsWhitespace(s[k])
    ensures n < |s| ==> !IsWhitespace(s[|s| - 1 - n])
  {
    if s == [] || !IsWhitespace(s[|s| - 1]) then 0 else 1 + TrailingWhitespace(s[..|s| - 1])
  }

  /** String.prototype.trimStart. */
  function TrimStart(s: string): (r: string)
    ensures r == [] || !IsWhitespace(r[0])
  {
    s[LeadingWhitespace(s)..]
  }

  /** String.prototype.trimEnd. */
  function TrimEnd(s: string): (r: string)
    ensures r == [] || !IsWhitespace(r[|r| - 1])
  {
    s[..|s| - TrailingWhitespace(s)]
  }

  /** String.prototype.trim: drop the leading and the trailing white space. */
  function Trim(s: string): (r: string)
    ensures IsTrimmed(r)
    ensures r == [] <==> AllWhitespace(s)
  {
    var t := TrimStart(s);
    assert t == [] <==> AllWhitespace(s) by {
      if LeadingWhitespace(s) < |s| {
        assert !IsWhitespace(s[LeadingWhitespace(s)]);
      }
    }
    assert TrimEnd(t) == [] ==> t == [] by {
      if t != [] {
        assert |t| - 1 - TrailingWhitespace(t) >= 0 by {
          assert !IsWhitespace(t[0]);
        }
      }
    }
    TrimEnd(t)
  }

  /** The characters whose lower-case form differs from themselves, restricted to
      the Basic Latin and Latin-1 Supplement blocks. */
  predicate HasLowerCaseMapping(c: char) {
    ('A' <= c <= 'Z') || ('\U{00C0}' <= c <= '\U{00DE}' && c != '\U{00D7}')
  }

  predicate IsLowerCase(s: string) {
    forall k :: 0 <= k < |s| ==> !HasLowerCaseMapping(s[k])
  }

  /** The lower-case form of one character (Basic Latin and Latin-1 Supplement). */
  function LowerChar(c: char): (d: char)
    ensures !HasLowerCaseMapping(d)
    ensures IsWhitespace(d) == IsWhitespace(c)
    ensures !HasLowerCaseMapping(c) ==> d == c
  {
    if HasLowerCaseMapping(c) then (c as int + 32) as char else c
  }

  /** String.prototype.toLowerCase, one character at a time. */
  function Lower(s: string): (r: string)
    ensures |r| == |s|
    ensures IsLowerCase(r)
    ensures forall k :: 0 <= k < |s| ==> (IsWhitespace(r[k]) <==> IsWhitespace(s[k]))
    ensures IsLowerCase(s) ==> r == s
  {
    seq(|s|, k requires 0 <= k < |s| => LowerChar(s[k]))
  }

  /** String.prototype.split with a one-character separator: the maximal
      separator-free pieces, always at least one. */
  function Split(s: string, sep: char): (r: seq<string>)
    ensures |r| >= 1
    ensures forall k :: 0 <= k < |r| ==> sep !in r[k]
  {
    if s == [] then
      [""]
    else
      var rest := Split(s[1..], sep);
      if s[0] == sep then [""] + rest else [[s[0]] + rest[0]] + rest[1..]
  }

  /** Array.prototype.join with a one-character separator: the inverse of Split. */
  function Join(parts: seq<string>, sep: char): string
    requires |parts| >= 1
  {
    if |parts| == 1 then parts[0] else parts[0] + [sep] + Join(parts[1..], sep)
  }

  /** Array.prototype.map. */
  function Map<A, B>(f: A -> B, s: seq<A>): (r: seq<B>)
  {
    seq(|s|, k requires 0 <= k < |s| => f(s[k]))
  }

  /** Array.prototype.filter: the elements satisfying p, in their original order. */
  function Filter<T(!new)>(p: T -> bool, s: seq<T>): (r: seq<T>)
    ensures |r| <= |s|
    ensures forall x :: x in r <==> x in s && p(x)
  {
    if s == [] then [] else (if p(s[0]) then [s[0]] else []) + Filter(p, s[1..])
  }

  // ---------------------------------------------------------------------------
  // Lemmas

  /** Leading white space of a white-space prefix adds up. */
  lemma {:induction false} LeadingWhitespaceAfter(pre: string, t: string)
    requires AllWhitespace(pre)
    ensures LeadingWhitespace(pre + t) == |pre| + LeadingWhitespace(t)
  {
    if pre != [] {
      assert (pre + t)[1..] == pre[1..] + t;
      LeadingWhitespaceAfter(pre[1..], t);
    } else {
      assert pre + t == t;
    }
  }

  /** Trailing white space of a white-space suffix adds up. */
  lemma {:induction false} TrailingWhitespaceBefore(t: string, post: string)
    requires AllWhitespace(post)
    ensures TrailingWhitespace(t + post) == TrailingWhitespace(t) + |post|
  {
    if post != [] {
      var init := post[..|post| - 1];
      assert (t + post)[..|t + post| - 1] == t + init;
      TrailingWhitespaceBefore(t, init);
    } else {
      assert t + post == t;
    }
  }

  /** Trim removes exactly the white space around a trimmed core: together with
      Trim's own postconditions this determines Trim completely. */
  lemma TrimOfPadded(pre: string, m: string, post: string)
    requires AllWhitespace(pre) && AllWhitespace(post) && IsTrimmed(m)
    ensures Trim(pre + m + post) == m
  {
    var s := pre + m + post;
    if m == [] {
      assert s == pre + post;
      assert AllWhitespace(s);
    } else {
      assert s == pre + (m + post);
      LeadingWhitespaceAfter(pre, m + post);
      assert LeadingWhitespace(m + post) == 0;
      var t := s[LeadingWhitespace(s)..];
      assert t == m + post;
      TrailingWhitespaceBefore(m, post);
      assert TrailingWhitespace(m) == 0;
      assert t[..|t| - |post|] == m;
    }
  }

  /** Trim leaves an already trimmed string alone, so it is idempotent. */
  lemma TrimIdempotent(s: string)
    ensures IsTrimmed(s) ==> Trim(s) == s
    ensures Trim(Trim(s)) == Trim(s)
  {
    if IsTrimmed(s) {
      assert "" + s + "" == s;
      TrimOfPadded("", s, "");
    }
    var t := Trim(s);
    assert "" + t + "" == t;
    TrimOfPadded("", t, "");
  }

  lemma LowerConcat(a: string, b: string)
    ensures Lower(a + b) == Lower(a) + Lower(b)
  {
  }

  lemma {:induction false} LeadingWhitespaceOfLower(s: string)
    ensures LeadingWhitespace(Lower(s)) == LeadingWhitespace(s)
  {
    if s != [] {
      assert Lower(s)[1..] == Lower(s[1..]);
      LeadingWhitespaceOfLower(s[1..]);
    }
  }

  lemma {:induction false} TrailingWhitespaceOfLower(s: string)
    ensures TrailingWhitespace(Lower(s)) == TrailingWhitespace(s)
  {
    if s != [] {
      assert Lower(s)[..|s| - 1] == Lower(s[..|s| - 1]);
      TrailingWhitespaceOfLower(s[..|s| - 1]);
    }
  }

  lemma TrimStartOfLower(s: string)
    ensures TrimStart(Lower(s)) == Lower(TrimStart(s))
  {
    LeadingWhitespaceOfLower(s);
  }

  lemma TrimEndOfLower(s: string)
    ensures TrimEnd(Lower(s)) == Lower(TrimEnd(s))
  {
    TrailingWhitespaceOfLower(s);
  }

  /** Lower-casing and trimming commute: the order in which a caller applies
      them does not matter. */
  lemma LowerTrimCommute(s: string)
    ensures Trim(Lower(s)) == Lower(Trim(s))
  {
    TrimStartOfLower(s);
    TrimEndOfLower(TrimStart(s));
  }

  /** Splitting a string that starts with a separator-free piece. */
  lemma {:induction false} SplitAfterPiece(p: string, t: string, sep: char)
    requires sep !in p
    ensures Split(p + t, sep) == [p + Split(t, sep)[0]] + Split(t, sep)[1..]
  {
    if p != [] {
      assert (p + t)[1..] == p[1..] + t;
      SplitAfterPiece(p[1..], t, sep);
      assert [p[0]] + (p[1..] + Split(t, sep)[0]) == p + Split(t, sep)[0];
    } else {
      assert p + t == t;
      assert p + Split(t, sep)[0] == Split(t, sep)[0];
      assert Split(t, sep) == [Split(t, sep)[0]] + Split(t, sep)[1..];
    }
  }

  /** Split is a homomorphism from separator-joined strings to concatenated pieces. */
  lemma {:induction false} SplitConcat(a: string, b: string, sep: char)
    ensures Split(a + [sep] + b, sep) == Split(a, sep) + Split(b, sep)
  {
    if a == [] {
      assert a + [sep] + b == [sep] + b;
      assert ([sep] + b)[1..] == b;
    } else {
      assert (a + [sep] + b)[1..] == a[1..] + [sep] + b;
      SplitConcat(a[1..], b, sep);
    }
  }

  /** A string without the separator is one piece. */
  lemma SplitSingle(s: string, sep: char)
    requires sep !in s
    ensures Split(s, sep) == [s]
  {
    SplitAfterPiece(s, "", sep);
    assert s + "" == s;
  }

  /** Joining the pieces gives the string back. */
  lemma {:induction false} JoinSplit(s: string, sep: char)
    ensures Join(Split(s, sep), sep) == s
  {
    if s != [] {
      JoinSplit(s[1..], sep);
      var rest := Split(s[1..], sep);
      if s[0] == sep {
        assert ([""] + rest)[1..] == rest;
      } else if |rest| > 1 {
        var r := [[s[0]] + rest[0]] + rest[1..];
        assert r[1..] == rest[1..];
        assert Join(rest, sep) == rest[0] + [sep] + Join(rest[1..], sep);
      }
    }
  }

  /** Splitting separator-free pieces joined by the separator gives the pieces back. */
  lemma {:induction false} SplitJoin(parts: seq<string>, sep: char)
    requires |parts| >= 1
    requires forall k :: 0 <= k < |parts| ==> sep !in parts[k]
    ensures Split(Join(parts, sep), sep) == parts
  {
    if |parts| == 1 {
      SplitSingle(parts[0], sep);
      assert parts == [parts[0]];
    } else {
      var j := Join(parts[1..], sep);
      SplitJoin(parts[1..], sep);
      assert Join(parts, sep) == parts[0] + ([sep] + j);
      SplitAfterPiece(parts[0], [sep] + j, sep);
      assert ([sep] + j)[1..] == j;
      assert Split([sep] + j, sep) == [""] + parts[1..];
      assert parts[0] + "" == parts[0];
      assert parts == [parts[0]] + parts[1..];
    }
  }

  lemma MapConcat<A, B>(f: A -> B, a: seq<A>, b: seq<A>)
    ensures Map(f, a + b) == Map(f, a) + Map(f, b)
  {
  }

  lemma {:induction false} FilterConcat<T(!new)>(p: T -> bool, a: seq<T>, b: seq<T>)
    ensures Filter(p, a + b) == Filter(p, a) + Filter(p, b)
  {
    if a != [] {
      assert (a + b)[1..] == a[1..] + b;
      FilterConcat(p, a[1..], b);
    } else {
      assert a + b == b;
    }
  }
}

/** Character classes and the two string operations the tag deriver relies on:
    JavaScript's `String.prototype.trim` and `String.prototype.split` with a
    one-character separator. */
module Text {

  /** The code points `trim` removes: the ECMAScript WhiteSpace set (tab,
      vertical tab, form feed, ZWNBSP and the Unicode category Zs, as of
      Unicode 15) and the LineTerminator set (LF, CR, LS, PS). */
  const Whitespace: set<char> := {
    '\t', '\n', '\U{000B}', '\U{000C}', '\r', ' ', '\U{00A0}', '\U{1680}',
    '\U{2000}', '\U{2001}', '\U{2002}', '\U{2003}', '\U{2004}', '\U{2005}',
    '\U{2006}', '\U{2007}', '\U{2008}', '\U{2009}', '\U{200A}',
    '\U{2028}', '\U{2029}', '\U{202F}', '\U{205F}', '\U{3000}', '\U{FEFF}'
  }

  predicate IsWhitespace(c: char) {
    c in Whitespace
  }

  /** The regular-expression class `[0-9]`. */
  predicate IsDigit(c: char) {
    '0' <= c <= '9'
  }

  /** The regular-expression class `[0-9a-f]`: lower-case hexadecimal only. */
  predicate IsLowerHex(c: char) {
    IsDigit(c) || 'a' <= c <= 'f'
  }

  predicate AllDigits(s: string) {
    forall i :: 0 <= i < |s| ==> IsDigit(s[i])
  }

  predicate AllLowerHex(s: string) {
    forall i :: 0 <= i < |s| ==> IsLowerHex(s[i])
  }

  predicate AllWhitespace(s: string) {
    forall i :: 0 <= i < |s| ==> IsWhitespace(s[i])
  }

  /** Neither end of `s` is whitespace (vacuously true of the empty string). */
  predicate IsTrimmed(s: string) {
    s == [] || (!IsWhitespace(s[0]) && !IsWhitespace(s[|s| - 1]))
  }

  /** The index of the first non-whitespace character of `s`, or `|s|`
      when there is none. */
  function TrimStartIndex(s: string): (i: nat)
    ensures i <= |s|
    ensures forall k :: 0 <= k < i ==> IsWhitespace(s[k])
    ensures i == |s| || !IsWhitespace(s[i])
  {
    if |s| > 0 && IsWhitespace(s[0]) then
      var i := 1 + TrimStartIndex(s[1..]);
      assert forall k :: 1 <= k < i ==> s[k] == s[1..][k - 1];
      i
    else 0
  }

  /** The index just after the last non-whitespace character of `s`, or 0
      when there is none. */
  function TrimEndIndex(s: string): (j: nat)
    ensures j <= |s|
    ensures forall k :: j <= k < |s| ==> IsWhitespace(s[k])
    ensures j == 0 || !IsWhitespace(s[j - 1])
  {
    if |s| > 0 && IsWhitespace(s[|s| - 1]) then TrimEndIndex(s[..|s| - 1]) else |s|
  }

  /** `String.prototype.trim`: `s` without its leading and trailing
      whitespace. */
  function Trim(s: string): (r: string)
    ensures IsTrimmed(r)
    ensures r == [] <==> AllWhitespace(s)
  {
    var i := TrimStartIndex(s);
    if i == |s| then []
    else
      var j := TrimEndIndex(s);
      assert i < j;
      s[i..j]
  }

  /** Trimming keeps a contiguous part of `s`, so it adds no character. */
  lemma TrimWithin(s: string, c: char)
    requires c in Trim(s)
    ensures c in s
  {
    var i := TrimStartIndex(s);
    var j := TrimEndIndex(s);
    var k :| 0 <= k < |Trim(s)| && Trim(s)[k] == c;
    assert s[i + k] == c;
  }

  /** `Trim` is determined by its specification: whatever whitespace
      surrounds a trimmed core, trimming returns exactly that core. */
  lemma TrimUnique(a: string, t: string, b: string)
    requires AllWhitespace(a) && AllWhitespace(b) && IsTrimmed(t)
    ensures Trim(a + t + b) == t
  {
    var s := a + t + b;
    var i := TrimStartIndex(s);
    if t == [] {
      assert forall k :: 0 <= k < |s| ==> IsWhitespace(s[k]) by {
        forall k | 0 <= k < |s| ensures IsWhitespace(s[k]) {
          if k < |a| { assert s[k] == a[k]; } else { assert s[k] == b[k - |a|]; }
        }
      }
    } else {
      assert s[|a|] == t[0];
      assert forall k :: 0 <= k < |a| ==> s[k] == a[k];
      assert i == |a|;
      var j := TrimEndIndex(s);
      assert s[|a| + |t| - 1] == t[|t| - 1];
      assert forall k :: |a| + |t| <= k < |s| ==> s[k] == b[k - |a| - |t|];
      assert j == |a| + |t|;
      assert s[i..j] == t;
    }
  }

  /** Trimming twice is trimming once. */
  lemma TrimIdempotent(s: string)
    ensures Trim(Trim(s)) == Trim(s)
  {
    TrimUnique([], Trim(s), []);
    assert [] + Trim(s) + [] == Trim(s);
  }

  /** `String.prototype.split` with a one-character separator: the pieces
      between consecutive separators, in order; the empty string yields
      one empty piece. */
  function Split(s: string, sep: char): (r: seq<string>)
    ensures |r| >= 1
    ensures forall k :: 0 <= k < |r| ==> sep !in r[k]
  {
    if s == [] then [[]]
    else
      var rest := Split(s[1..], sep);
      if s[0] == sep then [[]] + rest
      else [[s[0]] + rest[0]] + rest[1..]
  }

  /** The pieces glued back together with the separator between them. */
  function Join(pieces: seq<string>, sep: char): string {
    if |pieces| == 0 then []
    else if |pieces| == 1 then pieces[0]
    else pieces[0] + [sep] + Join(pieces[1..], sep)
  }

  /** Splitting loses nothing: joining the pieces gives the input back. */
  lemma {:induction false} JoinSplit(s: string, sep: char)
    ensures Join(Split(s, sep), sep) == s
  {
    if s != [] {
      var rest := Split(s[1..], sep);
      JoinSplit(s[1..], sep);
      if s[0] == sep {
        assert Split(s, sep)[1..] == rest;
      } else {
        var r := Split(s, sep);
        assert r[1..] == rest[1..];
        if |rest| == 1 {
          assert Join(r, sep) == [s[0]] + rest[0];
        } else {
          assert Join(r, sep) == [s[0]] + rest[0] + [sep] + Join(rest[1..], sep);
          assert Join(rest, sep) == rest[0] + [sep] + Join(rest[1..], sep);
        }
        assert s == [s[0]] + s[1..];
      }
    }
  }

  /** Splitting is the inverse of joining separator-free pieces. */
  lemma {:induction false} SplitJoin(pieces: seq<string>, sep: char)
    requires |pieces| >= 1
    requires forall k :: 0 <= k < |pieces| ==> sep !in pieces[k]
    ensures Split(Join(pieces, sep), sep) == pieces
  {
    if |pieces| == 1 {
      SplitFree(pieces[0], sep);
    } else {
      SplitJoin(pieces[1..], sep);
      assert Join(pieces, sep) == pieces[0] + [sep] + Join(pieces[1..], sep);
      SplitConcat(pieces[0], Join(pieces[1..], sep), sep);
      SplitFree(pieces[0], sep);
      assert pieces == [pieces[0]] + pieces[1..];
    }
  }

  /** A separator-free string is a single piece. */
  lemma {:induction false} SplitFree(s: string, sep: char)
    requires sep !in s
    ensures Split(s, sep) == [s]
  {
    if s != [] {
      assert sep !in s[1..] by { assert forall c :: c in s[1..] ==> c in s; }
      SplitFree(s[1..], sep);
      assert s == [s[0]] + s[1..];
    }
  }

  /** Splitting `a,b` gives the pieces of `a` followed by the pieces of `b`. */
  lemma {:induction false} SplitConcat(a: string, b: string, sep: char)
    ensures Split(a + [sep] + b, sep) == Split(a, sep) + Split(b, sep)
  {
    var s := a + [sep] + b;
    if a == [] {
      assert s[1..] == b;
    } else {
      assert s[1..] == a[1..] + [sep] + b;
      SplitConcat(a[1..], b, sep);
    }
  }
}

/** The three JavaScript string operations the roster parser is built from:
    `String.prototype.trim`, `String.prototype.split` with a one-character
    separator, and its inverse `Array.prototype.join`. */
module Text {

  /** The code points `trim` removes: ECMAScript's WhiteSpace (tab, vertical tab,
      form feed, the byte-order mark and every space separator of category Zs)
      and LineTerminator (line feed, carriage return, U+2028, U+2029). */
  predicate IsWhitespace(c: char) {
    || c == '\t' || c == '\n' || c == '\U{000B}' || c == '\U{000C}' || c == '\r'
    || c == ' ' || c == '\U{00A0}' || c == '\U{1680}'
    || ('\U{2000}' <= c <= '\U{200A}')
    || c == '\U{2028}' || c == '\U{2029}' || c == '\U{202F}' || c == '\U{205F}'
    || c == '\U{3000}' || c == '\U{FEFF}'
  }

  predicate AllWhitespace(s: string) {
    forall i :: 0 <= i < |s| ==> IsWhitespace(s[i])
  }

  /** A string that `trim` leaves alone: it neither starts nor ends with whitespace. */
  predicate IsTrimmed(s: string) {
    |s| == 0 || (!IsWhitespace(s[0]) && !IsWhitespace(s[|s| - 1]))
  }

  /** The length of the longest all-whitespace prefix. */
  function LeadingWhitespace(s: string): (n: nat)
    ensures n <= |s|
    ensures forall k :: 0 <= k < n ==> IsWhitespace(s[k])
    ensures n < |s| ==> !IsWhitespace(s[n])
  {
    if |s| > 0 && IsWhitespace(s[0]) then
      var m := LeadingWhitespace(s[1..]);
      assert forall k :: 1 <= k < 1 + m ==> s[k] == s[1..][k - 1];
      1 + m
    else 0
  }

  /** The length of the longest all-whitespace suffix. */
  function TrailingWhitespace(s: string): (n: nat)
    ensures n <= |s|
    ensures forall k :: |s| - n <= k < |s| ==> IsWhitespace(s[k])
    ensures n < |s| ==> !IsWhitespace(s[|s| - 1 - n])
  {
    if |s| > 0 && IsWhitespace(s[|s| - 1]) then
      var m := TrailingWhitespace(s[..|s| - 1]);
      assert forall k :: |s| - 1 - m <= k < |s| - 1 ==> s[k] == s[..|s| - 1][k];
      1 + m
    else 0
  }

  /** `s.trim()`: removes the whitespace at both ends and nothing else. */
  function Trim(s: string): (r: string)
    ensures IsTrimmed(r)
  {
    var t := s[LeadingWhitespace(s)..];
    t[..|t| - TrailingWhitespace(t)]
  }

  lemma LeadingIsWhitespace(s: string)
    ensures AllWhitespace(s[..LeadingWhitespace(s)])
  {
    var p := s[..LeadingWhitespace(s)];
    forall k | 0 <= k < |p| ensures IsWhitespace(p[k]) { assert p[k] == s[k]; }
  }

  lemma TrailingIsWhitespace(t: string)
    ensures AllWhitespace(t[|t| - TrailingWhitespace(t)..])
  {
    var b := TrailingWhitespace(t);
    var u := t[|t| - b..];
    forall k | 0 <= k < |u| ensures IsWhitespace(u[k]) { assert u[k] == t[|t| - b + k]; }
  }

  /** A string cut at `a`, whose tail `t` is cut again at `n` into `r` and the rest. */
  lemma Reassemble(s: string, a: nat, t: string, n: nat, r: string)
    requires a <= |s| && t == s[a..] && n <= |t| && r == t[..n]
    ensures s == s[..a] + r + t[n..]
  {
    assert t == t[..n] + t[n..];
    assert s == s[..a] + t;
  }

  /** What `trim` removes is whitespace padding around its result. */
  lemma TrimIsPadding(s: string) returns (before: string, after: string)
    ensures s == before + Trim(s) + after
    ensures AllWhitespace(before) && AllWhitespace(after)
  {
    var a := LeadingWhitespace(s);
    var t := s[a..];
    var b := TrailingWhitespace(t);
    LeadingIsWhitespace(s);
    TrailingIsWhitespace(t);
    var r := Trim(s);
    assert r == t[..|t| - b];
    Reassemble(s, a, t, |t| - b, r);
    before, after := s[..a], t[|t| - b..];
  }

  /** `trim` adds no character. */
  lemma TrimKeepsOut(s: string, c: char)
    requires c !in s
    ensures c !in Trim(s)
  {
    var t := s[LeadingWhitespace(s)..];
    assert forall k :: 0 <= k < |t| ==> t[k] == s[LeadingWhitespace(s) + k];
  }

  /** The leading-whitespace count is the one length that the whitespace prefix fills. */
  lemma LeadingWhitespaceIs(s: string, n: nat)
    requires n <= |s|
    requires forall k :: 0 <= k < n ==> IsWhitespace(s[k])
    requires n < |s| ==> !IsWhitespace(s[n])
    ensures LeadingWhitespace(s) == n
  {
    var m := LeadingWhitespace(s);
  }

  lemma TrailingWhitespaceIs(s: string, n: nat)
    requires n <= |s|
    requires forall k :: |s| - n <= k < |s| ==> IsWhitespace(s[k])
    requires n < |s| ==> !IsWhitespace(s[|s| - 1 - n])
    ensures TrailingWhitespace(s) == n
  {
    var m := TrailingWhitespace(s);
  }

  /** `trim` is determined by what it promises: the one trimmed core of a padded string. */
  lemma TrimUnique(s: string, a: string, r: string, b: string)
    requires s == a + r + b
    requires AllWhitespace(a) && AllWhitespace(b) && IsTrimmed(r)
    ensures Trim(s) == r
  {
    if |r| == 0 {
      forall k | 0 <= k < |s| ensures IsWhitespace(s[k]) {
        if k < |a| { assert s[k] == a[k]; } else { assert s[k] == b[k - |a|]; }
      }
      LeadingWhitespaceIs(s, |s|);
    } else {
      forall k | 0 <= k < |a| ensures IsWhitespace(s[k]) {
        assert s[k] == a[k];
      }
      assert s[|a|] == r[0];
      LeadingWhitespaceIs(s, |a|);
      var t := s[|a|..];
      assert t == r + b;
      forall k | |t| - |b| <= k < |t| ensures IsWhitespace(t[k]) {
        assert t[k] == b[k - |r|];
      }
      assert t[|t| - 1 - |b|] == r[|r| - 1];
      TrailingWhitespaceIs(t, |b|);
      assert t[..|t| - |b|] == r;
    }
  }

  /** `trim` leaves a string without whitespace at its ends as it is. */
  lemma TrimIdempotentOnTrimmed(s: string)
    requires IsTrimmed(s)
    ensures Trim(s) == s
  {
    assert s == [] + s + [];
    TrimUnique(s, [], s, []);
  }

  lemma TrimIdempotent(s: string)
    ensures Trim(Trim(s)) == Trim(s)
  {
    TrimIdempotentOnTrimmed(Trim(s));
  }

  /** Trimming leaves nothing exactly when the string is all whitespace. */
  lemma TrimEmptyIff(s: string)
    ensures Trim(s) == [] <==> AllWhitespace(s)
  {
    if AllWhitespace(s) {
      assert s == s + [] + [];
      TrimUnique(s, s, [], []);
    }
  }

  /** How many times `c` occurs in `s`. */
  function Occurrences(s: string, c: char): nat {
    if |s| == 0 then 0 else (if s[0] == c then 1 else 0) + Occurrences(s[1..], c)
  }

  lemma {:induction false} OccurrencesZero(s: string, c: char)
    ensures Occurrences(s, c) == 0 <==> c !in s
  {
    if |s| > 0 {
      OccurrencesZero(s[1..], c);
      assert s == [s[0]] + s[1..];
    }
  }

  /** Splitting on one separator character, as `s.split(sep)` does: the pieces
      between separators, in order; an empty string gives one empty piece. */
  function Split(s: string, sep: char): (pieces: seq<string>)
    ensures |pieces| == Occurrences(s, sep) + 1
    ensures forall k :: 0 <= k < |pieces| ==> sep !in pieces[k]
  {
    if |s| == 0 then [""]
    else
      var rest := Split(s[1..], sep);
      if s[0] == sep then [""] + rest
      else [[s[0]] + rest[0]] + rest[1..]
  }

  /** `pieces.join(sep)`. */
  function Join(pieces: seq<string>, sep: char): string
  {
    if |pieces| == 0 then ""
    else if |pieces| == 1 then pieces[0]
    else pieces[0] + [sep] + Join(pieces[1..], sep)
  }

  lemma JoinCons(x: string, rest: seq<string>, sep: char)
    requires |rest| >= 1
    ensures Join([x] + rest, sep) == x + [sep] + Join(rest, sep)
  {
    assert ([x] + rest)[1..] == rest;
  }

  /** How `Split` takes its first character apart. */
  lemma SplitFirst(s: string, sep: char)
    requires |s| > 0
    ensures s[0] == sep ==> Split(s, sep) == [""] + Split(s[1..], sep)
    ensures s[0] != sep ==> Split(s, sep) == [[s[0]] + Split(s[1..], sep)[0]] + Split(s[1..], sep)[1..]
  {
  }

  /** Splitting loses nothing: joining the pieces back gives the input. */
  lemma {:induction false} JoinSplit(s: string, sep: char)
    ensures Join(Split(s, sep), sep) == s
  {
    if |s| > 0 {
      var c, cs := s[0], s[1..];
      var rest := Split(cs, sep);
      JoinSplit(cs, sep);
      SplitFirst(s, sep);
      assert s == [c] + cs;
      if c == sep {
        calc {
          Join(Split(s, sep), sep);
          Join([""] + rest, sep);
          { JoinCons("", rest, sep); }
          "" + [sep] + Join(rest, sep);
          [c] + cs;
        }
      } else if |rest| == 1 {
        calc {
          Join(Split(s, sep), sep);
          Join([[c] + rest[0]], sep);
          [c] + rest[0];
          [c] + Join(rest, sep);
        }
      } else {
        var x, tail := rest[0], rest[1..];
        calc {
          Join(Split(s, sep), sep);
          Join([[c] + x] + tail, sep);
          { JoinCons([c] + x, tail, sep); }
          [c] + x + [sep] + Join(tail, sep);
          { assert rest == [x] + tail; JoinCons(x, tail, sep); }
          [c] + Join(rest, sep);
        }
      }
    }
  }

  /** Splitting a piece that holds no separator, followed by a separator. */
  lemma {:induction false} SplitCons(a: string, sep: char, b: string)
    requires sep !in a
    ensures Split(a + [sep] + b, sep) == [a] + Split(b, sep)
  {
    if |a| == 0 {
      assert a + [sep] + b == [sep] + b;
      assert ([sep] + b)[1..] == b;
    } else {
      var s := a + [sep] + b;
      assert s[0] == a[0] && s[1..] == a[1..] + [sep] + b;
      SplitCons(a[1..], sep, b);
      assert [a[0]] + a[1..] == a;
    }
  }

  lemma {:induction false} SplitWithout(a: string, sep: char)
    requires sep !in a
    ensures Split(a, sep) == [a]
  {
    if |a| > 0 {
      SplitWithout(a[1..], sep);
      assert [a[0]] + a[1..] == a;
    }
  }

  /** Joining is undone by splitting whenever no piece holds the separator. */
  lemma {:induction false} SplitJoin(pieces: seq<string>, sep: char)
    requires |pieces| >= 1
    requires forall k :: 0 <= k < |pieces| ==> sep !in pieces[k]
    ensures Split(Join(pieces, sep), sep) == pieces
  {
    if |pieces| == 1 {
      SplitWithout(pieces[0], sep);
    } else {
      SplitJoin(pieces[1..], sep);
      SplitCons(pieces[0], sep, Join(pieces[1..], sep));
      assert pieces == [pieces[0]] + pieces[1..];
    }
  }

  /** The last separator of a join stands just before the last piece. */
  lemma {:induction false} JoinSnoc(pieces: seq<string>, sep: char)
    requires |pieces| >= 2
    ensures Join(pieces, sep) == Join(pieces[..|pieces| - 1], sep) + [sep] + pieces[|pieces| - 1]
  {
    if |pieces| > 2 {
      JoinSnoc(pieces[1..], sep);
      assert pieces[1..][..|pieces| - 2] == pieces[..|pieces| - 1][1..];
    }
  }

  /** A join introduces no character but the separator. */
  lemma {:induction false} JoinAvoids(pieces: seq<string>, sep: char, c: char)
    requires c != sep
    requires forall k :: 0 <= k < |pieces| ==> c !in pieces[k]
    ensures c !in Join(pieces, sep)
  {
    if |pieces| > 1 {
      JoinAvoids(pieces[1..], sep, c);
    }
  }
}

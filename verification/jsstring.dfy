/**
 * The handful of JavaScript string operations the modelled code relies on:
 * `startsWith`, `indexOf`, `split` and `join` on a one-character separator,
 * `slice(1)`, `trim`, and the concatenation of a chunk array.
 * A JavaScript string is modelled as a sequence of `char`, one `char` standing
 * for each UTF-16 code unit, so lengths and offsets count code units.
 */
module JsString {

  import opened Wrappers

  /** `s.startsWith(p)` */
  predicate StartsWith(s: string, p: string) {
    |p| <= |s| && s[..|p|] == p
  }

  /** `s.slice(1)`: everything after the first code unit; the empty string stays empty. */
  function Tail(s: string): (r: string)
    ensures |s| > 0 ==> [s[0]] + r == s
    ensures |s| == 0 ==> r == s
  {
    if |s| == 0 then s else s[1..]
  }

  /** The number of occurrences of `c` in `s`. */
  function CountChar(s: string, c: char): nat
  {
    if |s| == 0 then 0 else (if s[0] == c then 1 else 0) + CountChar(s[1..], c)
  }

  lemma {:induction false} CountCharAppend(a: string, b: string, c: char)
    ensures CountChar(a + b, c) == CountChar(a, c) + CountChar(b, c)
    decreases |a|
  {
    if |a| == 0 {
      assert a + b == b;
    } else {
      assert (a + b)[1..] == a[1..] + b;
      CountCharAppend(a[1..], b, c);
    }
  }

  lemma {:induction false} CountCharAbsent(s: string, c: char)
    requires c !in s
    ensures CountChar(s, c) == 0
    decreases |s|
  {
    if |s| > 0 {
      assert c !in s[1..] by {
        forall k | 0 <= k < |s[1..]| ensures s[1..][k] != c {
          assert s[1..][k] == s[k + 1];
        }
      }
      CountCharAbsent(s[1..], c);
    }
  }

  /** A character occurs in `s` exactly when it is counted there. */
  lemma {:induction false} CountCharZero(s: string, c: char)
    ensures CountChar(s, c) == 0 <==> c !in s
    decreases |s|
  {
    if c !in s {
      CountCharAbsent(s, c);
    } else if |s| > 0 && s[0] != c {
      assert c in s[1..] by {
        var k :| 0 <= k < |s| && s[k] == c;
        assert s[1..][k - 1] == c;
      }
      CountCharZero(s[1..], c);
    }
  }

  /** `s.indexOf(c, from)` for a one-character search string, `None` standing for -1. */
  function IndexOf(s: string, c: char, from: nat): (r: Option<nat>)
    requires from <= |s|
    ensures r.Some? ==> from <= r.value < |s| && s[r.value] == c && c !in s[from..r.value]
    ensures r.None? ==> c !in s[from..]
    decreases |s| - from
  {
    if from == |s| then None
    else if s[from] == c then Some(from)
    else IndexOf(s, c, from + 1)
  }

  /** `pat` occurs in `s` at position `q`. */
  predicate MatchAt(s: string, pat: string, q: nat) {
    q + |pat| <= |s| && s[q..q + |pat|] == pat
  }

  /** `s.indexOf(pat, from)` for a non-empty search string, `None` standing for -1. */
  function IndexOfString(s: string, pat: string, from: nat): (r: Option<nat>)
    requires |pat| > 0
    ensures r.Some? ==> from <= r.value && MatchAt(s, pat, r.value)
    ensures r.Some? ==> forall q :: from <= q < r.value ==> !MatchAt(s, pat, q)
    ensures r.None? ==> forall q :: from <= q ==> !MatchAt(s, pat, q)
    decreases |s| - from
  {
    if from + |pat| > |s| then None
    else if s[from..from + |pat|] == pat then Some(from)
    else IndexOfString(s, pat, from + 1)
  }

  /**
   * `s.split(c)` for a one-character separator: the fields between
   * separators, always at least one, one more than there are separators.
   */
  function Split(s: string, c: char): (r: seq<string>)
    ensures |r| == CountChar(s, c) + 1
    ensures forall k :: 0 <= k < |r| ==> c !in r[k]
  {
    if |s| == 0 then [[]]
    else
      var rest := Split(s[1..], c);
      if s[0] == c then [[]] + rest
      else [[s[0]] + rest[0]] + rest[1..]
  }

  /** `parts.join(c)` for a one-character separator. */
  function Join(parts: seq<string>, c: char): string
  {
    if |parts| == 0 then []
    else if |parts| == 1 then parts[0]
    else parts[0] + [c] + Join(parts[1..], c)
  }

  /** Joining the fields of a split restores the original string. */
  lemma {:induction false} JoinSplit(s: string, c: char)
    ensures Join(Split(s, c), c) == s
    decreases |s|
  {
    if |s| > 0 {
      var rest := Split(s[1..], c);
      JoinSplit(s[1..], c);
      if s[0] == c {
        assert Split(s, c) == [[]] + rest;
        assert ([[]] + rest)[1..] == rest;
      } else {
        var r := Split(s, c);
        assert r == [[s[0]] + rest[0]] + rest[1..];
        if |rest| == 1 {
          assert Join(rest, c) == rest[0];
        } else {
          assert r[1..] == rest[1..];
          assert Join(rest, c) == rest[0] + [c] + Join(rest[1..], c);
        }
      }
    }
  }

  /** Unfolds `Split` on a string written as its first code unit and the rest. */
  lemma SplitCons(ch: char, u: string, c: char)
    ensures Split([ch] + u, c) ==
      if ch == c then [[]] + Split(u, c) else [[ch] + Split(u, c)[0]] + Split(u, c)[1..]
  {
    assert ([ch] + u)[0] == ch && ([ch] + u)[1..] == u;
  }

  /** The empty string splits into one empty field. */
  lemma SplitEmpty(c: char)
    ensures Split([], c) == [[]]
  {
  }

  /** A string without the separator splits into itself. */
  lemma {:induction false} SplitNoSeparator(s: string, c: char)
    requires c !in s
    ensures Split(s, c) == [s]
    decreases |s|
  {
    if |s| > 0 {
      assert c !in s[1..];
      SplitNoSeparator(s[1..], c);
      SplitCons(s[0], s[1..], c);
      assert [s[0]] + s[1..] == s;
    }
  }

  /** The first field ends at the first separator. */
  lemma {:induction false} SplitAtFirst(a: string, b: string, c: char)
    requires c !in a
    ensures Split(a + [c] + b, c) == [a] + Split(b, c)
    decreases |a|
  {
    var s := a + [c] + b;
    if |a| == 0 {
      assert s[0] == c && s[1..] == b;
    } else {
      assert s[0] == a[0];
      assert s[1..] == a[1..] + [c] + b;
      assert c !in a[1..];
      SplitAtFirst(a[1..], b, c);
      assert [a[0]] + a[1..] == a;
    }
  }

  /** Every code unit of a field occurs in the split string. */
  lemma {:induction false} SplitFieldChars(s: string, c: char, k: nat, ch: char)
    requires k < |Split(s, c)| && ch in Split(s, c)[k]
    ensures ch in s
    decreases |s|
  {
    if |s| > 0 {
      var rest := Split(s[1..], c);
      if s[0] == c {
        SplitFieldChars(s[1..], c, k - 1, ch);
      } else if k > 0 {
        assert Split(s, c)[k] == rest[k];
        SplitFieldChars(s[1..], c, k, ch);
      } else if ch != s[0] {
        assert ch in rest[0];
        SplitFieldChars(s[1..], c, 0, ch);
      }
    }
  }

  /** Two separator-free fields joined by the separator split back into the two. */
  lemma SplitTwo(a: string, b: string, c: char)
    requires c !in a && c !in b
    ensures Split(a + [c] + b, c) == [a, b]
  {
    SplitAtFirst(a, b, c);
    SplitNoSeparator(b, c);
  }

  /** A line whose ends are not spaces is the trim of itself with a line feed after it. */
  lemma TrimLine(t: string)
    requires |t| > 0 && !IsJsSpace(t[0]) && !IsJsSpace(t[|t| - 1])
    ensures Trim(t + ['\n']) == t
  {
    var s := t + ['\n'];
    assert TrimStart(s) == s;
    assert s[..|s| - 1] == t;
    assert TrimEnd(s) == TrimEnd(t);
  }

  /** Trimming a string padded with one space on each side removes exactly the padding. */
  lemma TrimPadded(t: string)
    requires |t| > 0 && !IsJsSpace(t[0]) && !IsJsSpace(t[|t| - 1])
    ensures Trim([' '] + t + [' ']) == t
  {
    var u := t + [' '];
    assert ([' '] + t + [' '])[1..] == u;
    assert TrimStart([' '] + t + [' ']) == TrimStart(u) == u;
    assert u[..|u| - 1] == t;
    assert TrimEnd(u) == TrimEnd(t) == t;
  }

  /** Splitting the fields back out of a join: the inverse of `JoinSplit`. */
  lemma {:induction false} SplitJoin(parts: seq<string>, c: char)
    requires |parts| >= 1
    requires forall k :: 0 <= k < |parts| ==> c !in parts[k]
    ensures Split(Join(parts, c), c) == parts
    decreases |parts|
  {
    if |parts| == 1 {
      SplitNoSeparator(parts[0], c);
    } else {
      SplitJoin(parts[1..], c);
      SplitAtFirst(parts[0], Join(parts[1..], c), c);
      assert [parts[0]] + parts[1..] == parts;
    }
  }

  /**
   * Appending text to a string only extends its last field: the earlier
   * fields are final once their separator has been seen.
   */
  lemma {:induction false} SplitAppend(s: string, t: string, c: char)
    ensures var r := Split(s, c);
      Split(s + t, c) == r[..|r| - 1] + Split(r[|r| - 1] + t, c)
    decreases |s|
  {
    hide *;
    if |s| == 0 {
      assert s + t == t;
      SplitEmpty(c);
    } else {
      var s0, s1 := s[0], s[1..];
      assert s == [s0] + s1;
      assert s + t == [s0] + (s1 + t);
      var rest := Split(s1, c);
      var n := |rest|;
      SplitAppend(s1, t, c);
      var q := Split(s1 + t, c);
      var last := Split(rest[n - 1] + t, c);
      assert q == rest[..n - 1] + last;
      SplitCons(s0, s1, c);
      SplitCons(s0, s1 + t, c);
      if s0 == c {
        SplitAppendSep(rest, q, last, c);
      } else if n == 1 {
        assert q == last;
        assert [s0] + rest[0] + t == [s0] + (rest[0] + t);
        SplitCons(s0, rest[0] + t, c);
      } else {
        SplitAppendField(s0, rest, q, last);
      }
    }
  }

  lemma SplitAppendSep(rest: seq<string>, q: seq<string>, last: seq<string>, c: char)
    requires |rest| >= 1 && q == rest[..|rest| - 1] + last
    ensures var r := [[]] + rest; [[]] + q == r[..|r| - 1] + last
  {
    var r := [[]] + rest;
    assert r[..|r| - 1] == [[]] + rest[..|rest| - 1];
  }

  lemma SplitAppendField(s0: char, rest: seq<string>, q: seq<string>, last: seq<string>)
    requires |rest| >= 2 && q == rest[..|rest| - 1] + last
    ensures var r := [[s0] + rest[0]] + rest[1..];
      [[s0] + q[0]] + q[1..] == r[..|r| - 1] + last
  {
    var n := |rest|;
    assert q[0] == rest[0];
    assert q[1..] == rest[1..n - 1] + last;
    var r := [[s0] + rest[0]] + rest[1..];
    assert r[..|r| - 1] == [[s0] + rest[0]] + rest[1..n - 1];
  }

  /** The concatenation of a chunk array, as if every chunk were read in order. */
  function Flatten(chunks: seq<string>): string
  {
    if |chunks| == 0 then [] else chunks[0] + Flatten(chunks[1..])
  }

  /**
   * The code units JavaScript's `trim` and `Number` skip: the WhiteSpace
   * (tab, vertical tab, form feed, no-break space, byte order mark and the
   * space separators) and LineTerminator code points of ECMAScript.
   */
  predicate IsJsSpace(ch: char) {
    ch == '\t' || ch == '\n' || ch == '\U{B}' || ch == '\U{C}' || ch == '\r' || ch == ' '
    || ch == '\U{A0}' || ch == '\U{1680}' || ('\U{2000}' <= ch <= '\U{200A}')
    || ch == '\U{2028}' || ch == '\U{2029}' || ch == '\U{202F}' || ch == '\U{205F}'
    || ch == '\U{3000}' || ch == '\U{FEFF}'
  }

  function TrimStart(s: string): (r: string)
    ensures |r| <= |s| && r == s[|s| - |r|..]
    ensures forall k :: 0 <= k < |s| - |r| ==> IsJsSpace(s[k])
    ensures |r| > 0 ==> !IsJsSpace(r[0])
    decreases |s|
  {
    if |s| > 0 && IsJsSpace(s[0]) then TrimStart(s[1..]) else s
  }

  function TrimEnd(s: string): (r: string)
    ensures |r| <= |s| && r == s[..|r|]
    ensures forall k :: |r| <= k < |s| ==> IsJsSpace(s[k])
    ensures |r| > 0 ==> !IsJsSpace(r[|r| - 1])
    decreases |s|
  {
    if |s| > 0 && IsJsSpace(s[|s| - 1]) then TrimEnd(s[..|s| - 1]) else s
  }

  /** `r` is the slice of `s` at `a` with only spaces on either side of it. */
  predicate TrimmedAt(s: string, r: string, a: nat) {
    a + |r| <= |s| && r == s[a..a + |r|]
    && (forall k :: 0 <= k < a ==> IsJsSpace(s[k]))
    && (forall k :: a + |r| <= k < |s| ==> IsJsSpace(s[k]))
  }

  /** `s.trim()`: the slice of `s` left after dropping leading and trailing spaces. */
  function Trim(s: string): (r: string)
    ensures exists a :: TrimmedAt(s, r, a)
    ensures |r| > 0 ==> !IsJsSpace(r[0]) && !IsJsSpace(r[|r| - 1])
  {
    var t := TrimStart(s);
    var r := TrimEnd(t);
    TrimmedParts(s, t, r);
    r
  }

  /**
   * The trim is determined by where the spaces are: a slice with only
   * spaces around it, whose own ends are not spaces, is the trim.
   */
  lemma TrimOfTrimmed(s: string, w: string, b: nat)
    requires TrimmedAt(s, w, b) && |w| > 0 && !IsJsSpace(w[0]) && !IsJsSpace(w[|w| - 1])
    ensures Trim(s) == w
  {
    var r := Trim(s);
    var a: nat :| TrimmedAt(s, r, a);
    assert s[b] == w[0];
    assert s[b + |w| - 1] == w[|w| - 1];
    if |r| == 0 {
      assert false;
    }
    assert s[a] == r[0];
    assert s[a + |r| - 1] == r[|r| - 1];
    assert a == b;
    assert |r| == |w|;
  }

  /** Dropping leading spaces and then trailing ones leaves a slice with only spaces around it. */
  lemma TrimmedParts(s: string, t: string, r: string)
    requires |t| <= |s| && t == s[|s| - |t|..] && forall k :: 0 <= k < |s| - |t| ==> IsJsSpace(s[k])
    requires |r| <= |t| && r == t[..|r|] && forall k :: |r| <= k < |t| ==> IsJsSpace(t[k])
    ensures TrimmedAt(s, r, |s| - |t|)
  {
    var a := |s| - |t|;
    assert r == s[a..a + |r|];
    forall k | a + |r| <= k < |s| ensures IsJsSpace(s[k]) {
      assert s[k] == t[k - a];
    }
  }
}

/** Properties of the unified-diff parser. */
module GitDiffLemmas {

  import opened Wrappers
  import opened JsString
  import opened JsNumber
  import opened GitDiff

  /** `x` is one of the line numbers `n .. n + len - 1`. */
  predicate InRun(x: JsNum, n: int, len: int) {
    x.Num? && n <= x.v < n + len
  }

  function Max(a: int, b: int): int {
    if a < b then b else a
  }

  /** A run of `d` deleted lines ends after them, with the counter advanced by `d`. */
  lemma {:induction false} DeleteRunEnd(lines: seq<string>, i: nat, d: nat, n: int, m: map<JsNum, HunkLine>)
    requires i + d <= |lines|
    requires forall k :: i <= k < i + d ==> StartsWith(lines[k], "-")
    requires i + d == |lines| || !StartsWith(lines[i + d], "-")
    ensures var r := DeleteRun(lines, i, Num(n), m);
      r.i == i + d && r.n == Num(n + d) && (forall x :: x in r.m <==> x in m || InRun(x, n, d))
    decreases d
  {
    if d > 0 {
      var m1 := m[Num(n) := RemovedLine(lines[i])];
      DeleteRunEnd(lines, i + 1, d - 1, n + 1, m1);
      var r := DeleteRun(lines, i + 1, Num(n + 1), m1);
      assert DeleteRun(lines, i, Num(n), m) == r;
      forall x ensures x in r.m <==> x in m || InRun(x, n, d) {
        assert InRun(x, n, d) <==> x == Num(n) || InRun(x, n + 1, d - 1);
      }
    }
  }

  /** A run of `d` deleted lines records each of them as removed, numbered from `n`, and nothing else. */
  lemma {:induction false} DeleteRunEntries(lines: seq<string>, i: nat, d: nat, n: int, m: map<JsNum, HunkLine>)
    requires i + d <= |lines|
    requires forall k :: i <= k < i + d ==> StartsWith(lines[k], "-")
    requires i + d == |lines| || !StartsWith(lines[i + d], "-")
    ensures var r := DeleteRun(lines, i, Num(n), m);
      && (forall v :: n <= v < n + d ==> Num(v) in r.m && r.m[Num(v)] == RemovedLine(lines[i + (v - n)]))
      && (forall x :: x in m && !InRun(x, n, d) ==> x in r.m && r.m[x] == m[x])
    decreases d
  {
    if d > 0 {
      var m1 := m[Num(n) := RemovedLine(lines[i])];
      DeleteRunEntries(lines, i + 1, d - 1, n + 1, m1);
      var r := DeleteRun(lines, i + 1, Num(n + 1), m1);
      assert DeleteRun(lines, i, Num(n), m) == r;
      DeleteRunEntriesStep(lines, i, d, n, i + 1, d - 1, n + 1, m, m1, r.m);
    }
  }

  /**
   * One deleted line on top of the entries of the rest of its run, which
   * starts at line `i1` with number `n1` and is `d1` lines long.
   */
  lemma DeleteRunEntriesStep(lines: seq<string>, i: nat, d: nat, n: int, i1: nat, d1: nat, n1: int,
                             m: map<JsNum, HunkLine>, m1: map<JsNum, HunkLine>, rm: map<JsNum, HunkLine>)
    requires d > 0 && i + d <= |lines| && i1 == i + 1 && d1 == d - 1 && n1 == n + 1
    requires m1 == m[Num(n) := RemovedLine(lines[i])]
    requires forall v :: n1 <= v < n1 + d1 ==> Num(v) in rm && rm[Num(v)] == RemovedLine(lines[i1 + (v - n1)])
    requires forall x :: x in m1 && !InRun(x, n1, d1) ==> x in rm && rm[x] == m1[x]
    ensures forall v :: n <= v < n + d ==> Num(v) in rm && rm[Num(v)] == RemovedLine(lines[i + (v - n)])
    ensures forall x :: x in m && !InRun(x, n, d) ==> x in rm && rm[x] == m[x]
  {
    forall v | n <= v < n + d ensures Num(v) in rm && rm[Num(v)] == RemovedLine(lines[i + (v - n)]) {
      if v > n {
        assert i1 + (v - n1) == i + (v - n);
      } else {
        assert !InRun(Num(n), n1, d1);
      }
    }
  }

  /** A run of `a` added lines ends after them, with the counter advanced by `a`. */
  lemma {:induction false} AddRunEnd(lines: seq<string>, i: nat, a: nat, n: int, m: map<JsNum, HunkLine>)
    requires i + a <= |lines|
    requires forall k :: i <= k < i + a ==> StartsWith(lines[k], "+")
    requires i + a == |lines| || !StartsWith(lines[i + a], "+")
    ensures var r := AddRun(lines, i, Num(n), m);
      r.i == i + a && r.n == Num(n + a) && (forall x :: x in r.m <==> x in m || InRun(x, n, a))
    decreases a
  {
    if a > 0 {
      var m1 := m[Num(n) := AddedLine(m, Num(n), lines[i])];
      AddRunEnd(lines, i + 1, a - 1, n + 1, m1);
      var r := AddRun(lines, i + 1, Num(n + 1), m1);
      assert AddRun(lines, i, Num(n), m) == r;
      forall x ensures x in r.m <==> x in m || InRun(x, n, a) {
        assert InRun(x, n, a) <==> x == Num(n) || InRun(x, n + 1, a - 1);
      }
    }
  }

  /**
   * `rm` holds the entries of a run of `a` added lines numbered from `n`
   * over the entries `m`: a line whose number already has an entry turns it
   * into a change, the others are recorded as added, and every other entry
   * of `m` is kept.
   */
  ghost predicate AddedEntries(lines: seq<string>, i: nat, a: nat, n: int, m: map<JsNum, HunkLine>, rm: map<JsNum, HunkLine>)
    requires i + a <= |lines|
  {
    && (forall v :: n <= v < n + a ==> Num(v) in rm && rm[Num(v)] == AddedLine(m, Num(v), lines[i + (v - n)]))
    && (forall x :: x in m && !InRun(x, n, a) ==> x in rm && rm[x] == m[x])
  }

  /**
   * A run of `a` added lines numbered from `n`: a line whose number already
   * has an entry turns it into a change, the others are recorded as added.
   */
  lemma {:induction false} AddRunEntries(lines: seq<string>, i: nat, a: nat, n: int, m: map<JsNum, HunkLine>)
    requires i + a <= |lines|
    requires forall k :: i <= k < i + a ==> StartsWith(lines[k], "+")
    requires i + a == |lines| || !StartsWith(lines[i + a], "+")
    ensures AddedEntries(lines, i, a, n, m, AddRun(lines, i, Num(n), m).m)
  {
    AddRunEntriesInto(lines, i, a, n, m, AddRun(lines, i, Num(n), m).m);
  }

  /** `AddRunEntries` for the entries `rm` the run ends with. */
  lemma {:induction false} AddRunEntriesInto(lines: seq<string>, i: nat, a: nat, n: int,
                                             m: map<JsNum, HunkLine>, rm: map<JsNum, HunkLine>)
    requires i + a <= |lines|
    requires forall k :: i <= k < i + a ==> StartsWith(lines[k], "+")
    requires i + a == |lines| || !StartsWith(lines[i + a], "+")
    requires rm == AddRun(lines, i, Num(n), m).m
    ensures AddedEntries(lines, i, a, n, m, rm)
    decreases a
  {
    if a > 0 {
      var m1 := m[Num(n) := AddedLine(m, Num(n), lines[i])];
      AddRunUnfold(lines, i, Num(n), m);
      AddRunEntriesInto(lines, i + 1, a - 1, n + 1, m1, rm);
      AddRunEntriesStep(lines, i, a, n, m, m1, rm);
    }
  }

  /** One pass of the loop over a run of added lines. */
  lemma AddRunUnfold(lines: seq<string>, i: nat, n: JsNum, m: map<JsNum, HunkLine>)
    requires i < |lines| && StartsWith(lines[i], "+")
    ensures AddRun(lines, i, n, m) == AddRun(lines, i + 1, Add(n, 1), m[n := AddedLine(m, n, lines[i])])
  {
  }

  /** One added line on top of the entries of the rest of its run. */
  lemma AddRunEntriesStep(lines: seq<string>, i: nat, a: nat, n: int,
                          m: map<JsNum, HunkLine>, m1: map<JsNum, HunkLine>, rm: map<JsNum, HunkLine>)
    requires a > 0 && i + a <= |lines|
    requires m1 == m[Num(n) := AddedLine(m, Num(n), lines[i])]
    requires AddedEntries(lines, i + 1, a - 1, n + 1, m1, rm)
    ensures AddedEntries(lines, i, a, n, m, rm)
  {
    forall v | n <= v < n + a ensures Num(v) in rm && rm[Num(v)] == AddedLine(m, Num(v), lines[i + (v - n)]) {
      if v > n {
        assert i + 1 + (v - (n + 1)) == i + (v - n);
        assert (Num(v) in m1) == (Num(v) in m);
      } else {
        assert !InRun(Num(n), n + 1, a - 1);
      }
    }
  }

  /** The shape of a change run: `d` lines deleted, then `a` lines added. */
  predicate IsChangeRun(lines: seq<string>, i: nat, d: nat, a: nat) {
    && d >= 1 && i + d + a <= |lines|
    && (forall k :: i <= k < i + d ==> StartsWith(lines[k], "-"))
    && (i + d == |lines| || !StartsWith(lines[i + d], "-"))
    && (forall k :: i + d <= k < i + d + a ==> StartsWith(lines[k], "+"))
    && (i + d + a == |lines| || !StartsWith(lines[i + d + a], "+"))
  }

  /** Every entry so far is numbered below `n`. */
  ghost predicate Below(m: map<JsNum, HunkLine>, n: int) {
    forall v :: Num(v) in m ==> v < n
  }

  lemma ChangeRunEnd(lines: seq<string>, i: nat, d: nat, a: nat, n: int, m: map<JsNum, HunkLine>)
    requires IsChangeRun(lines, i, d, a)
    ensures var r := Step(lines, i, Num(n), m);
      && r.i == i + d + a
      && r.n == Num(if a > 0 then n + a else n + d)
      && (forall x :: x in r.m <==> x in m || InRun(x, n, Max(d, a)))
  {
    DeleteRunEnd(lines, i, d, n, m);
    var deleted := DeleteRun(lines, i, Num(n), m);
    var r := Step(lines, i, Num(n), m);
    if a > 0 {
      AddRunEnd(lines, i + d, a, n, deleted.m);
      assert r == AddRun(lines, i + d, Num(n), deleted.m);
      forall x ensures x in r.m <==> x in m || InRun(x, n, Max(d, a)) {
        assert InRun(x, n, Max(d, a)) <==> InRun(x, n, d) || InRun(x, n, a);
      }
    } else {
      assert r == deleted;
    }
  }

  /** A change run is one step of the body loop: the deletions, then the additions on top. */
  lemma ChangeRunStep(lines: seq<string>, i: nat, d: nat, a: nat, n: int, m: map<JsNum, HunkLine>)
    requires IsChangeRun(lines, i, d, a)
    ensures var deleted := DeleteRun(lines, i, Num(n), m);
      Step(lines, i, Num(n), m) == if a > 0 then AddRun(lines, i + d, Num(n), deleted.m) else deleted
  {
    DeleteRunEnd(lines, i, d, n, m);
  }

  /** Pairing by position, stated on the maps before and after each run. */
  lemma PairUp(lines: seq<string>, i: nat, j: nat, d: nat, a: nat, n: int,
               m: map<JsNum, HunkLine>, dm: map<JsNum, HunkLine>, rm: map<JsNum, HunkLine>)
    requires j == i + d && j + a <= |lines| && Below(m, n)
    requires forall x :: x in dm <==> x in m || InRun(x, n, d)
    requires forall v :: n <= v < n + d ==> Num(v) in dm && dm[Num(v)] == RemovedLine(lines[i + (v - n)])
    requires forall x :: x in m && !InRun(x, n, d) ==> x in dm && dm[x] == m[x]
    requires forall v :: n <= v < n + a ==> Num(v) in rm && rm[Num(v)] == AddedLine(dm, Num(v), lines[j + (v - n)])
    requires forall x :: x in dm && !InRun(x, n, a) ==> x in rm && rm[x] == dm[x]
    ensures forall v :: n <= v < n + d && v < n + a ==> (Num(v) in rm &&
      rm[Num(v)] == HunkLine(Some(Tail(lines[i + d + (v - n)])), Some(Tail(lines[i + (v - n)])), Changed))
    ensures forall v :: n + a <= v < n + d ==> Num(v) in rm && rm[Num(v)] == RemovedLine(lines[i + (v - n)])
    ensures forall v :: n + d <= v < n + a ==> (Num(v) in rm &&
      rm[Num(v)] == HunkLine(Some(Tail(lines[i + d + (v - n)])), None, Added))
    ensures forall x :: x in m ==> x in rm && rm[x] == m[x]
  {
    forall v | n + d <= v < n + a ensures Num(v) !in dm {
      assert Num(v) !in m;
    }
    forall v | n + a <= v < n + d ensures rm[Num(v)] == RemovedLine(lines[i + (v - n)]) {
      assert !InRun(Num(v), n, a);
    }
    forall x | x in m ensures x in rm && rm[x] == m[x] {
      if x.Num? { assert x.v < n; }
      assert !InRun(x, n, d) && !InRun(x, n, a);
    }
  }

  lemma ChangeRunPaired(lines: seq<string>, i: nat, d: nat, a: nat, n: int, m: map<JsNum, HunkLine>)
    requires IsChangeRun(lines, i, d, a) && Below(m, n) && a > 0
    ensures var r := AddRun(lines, i + d, Num(n), DeleteRun(lines, i, Num(n), m).m);
      && (forall v :: n <= v < n + d && v < n + a ==> (Num(v) in r.m &&
            r.m[Num(v)] == HunkLine(Some(Tail(lines[i + d + (v - n)])), Some(Tail(lines[i + (v - n)])), Changed)))
      && (forall v :: n + a <= v < n + d ==> Num(v) in r.m && r.m[Num(v)] == RemovedLine(lines[i + (v - n)]))
      && (forall v :: n + d <= v < n + a ==> (Num(v) in r.m &&
            r.m[Num(v)] == HunkLine(Some(Tail(lines[i + d + (v - n)])), None, Added)))
      && (forall x :: x in m ==> x in r.m && r.m[x] == m[x])
  {
    DeleteRunEnd(lines, i, d, n, m);
    DeleteRunEntries(lines, i, d, n, m);
    var deleted := DeleteRun(lines, i, Num(n), m);
    var j, dm := i + d, deleted.m;
    AddRunEntries(lines, j, a, n, dm);
    var r := AddRun(lines, j, Num(n), dm);
    PairUp(lines, i, j, d, a, n, m, dm, r.m);
  }

  lemma ChangeRunEntries(lines: seq<string>, i: nat, d: nat, a: nat, n: int, m: map<JsNum, HunkLine>)
    requires IsChangeRun(lines, i, d, a) && Below(m, n)
    ensures var r := Step(lines, i, Num(n), m);
      && (forall v :: n <= v < n + d && v < n + a ==> (Num(v) in r.m &&
            r.m[Num(v)] == HunkLine(Some(Tail(lines[i + d + (v - n)])), Some(Tail(lines[i + (v - n)])), Changed)))
      && (forall v :: n + a <= v < n + d ==> Num(v) in r.m && r.m[Num(v)] == RemovedLine(lines[i + (v - n)]))
      && (forall v :: n + d <= v < n + a ==> (Num(v) in r.m &&
            r.m[Num(v)] == HunkLine(Some(Tail(lines[i + d + (v - n)])), None, Added)))
      && (forall x :: x in m ==> x in r.m && r.m[x] == m[x])
  {
    ChangeRunStep(lines, i, d, a, n, m);
    if a > 0 {
      ChangeRunPaired(lines, i, d, a, n, m);
    } else {
      DeleteRunEntries(lines, i, d, n, m);
      forall x | x in m ensures !InRun(x, n, d) {
        if x.Num? { assert x.v < n; }
      }
    }
  }

  /**
   * A run of `d` deleted lines followed by `a` added lines at line `n`
   * (with every entry so far numbered below `n`): the first `min(d, a)`
   * lines are changes pairing the texts by position, the rest are removals
   * or additions, and the counter continues after the added lines, or
   * after the deleted ones when nothing was added.
   */
  lemma ChangeRun(lines: seq<string>, i: nat, d: nat, a: nat, n: int, m: map<JsNum, HunkLine>)
    requires IsChangeRun(lines, i, d, a) && Below(m, n)
    ensures var r := Step(lines, i, Num(n), m);
      && r.i == i + d + a
      && r.n == Num(if a > 0 then n + a else n + d)
      && (forall x :: x in r.m <==> x in m || InRun(x, n, Max(d, a)))
      && (forall v :: n <= v < n + d && v < n + a ==>
            r.m[Num(v)] == HunkLine(Some(Tail(lines[i + d + (v - n)])), Some(Tail(lines[i + (v - n)])), Changed))
      && (forall v :: n + a <= v < n + d ==> r.m[Num(v)] == RemovedLine(lines[i + (v - n)]))
      && (forall v :: n + d <= v < n + a ==> r.m[Num(v)] == HunkLine(Some(Tail(lines[i + d + (v - n)])), None, Added))
      && (forall x :: x in m ==> r.m[x] == m[x])
  {
    ChangeRunEnd(lines, i, d, a, n, m);
    ChangeRunEntries(lines, i, d, a, n, m);
  }

  /** The number of lines that start a hunk. */
  function HeaderLines(lines: seq<string>): nat {
    if |lines| == 0 then 0
    else (if StartsWith(lines[0], "@@") then 1 else 0) + HeaderLines(lines[1..])
  }

  /** A header line whose range words are missing. */
  predicate BadHeader(line: string) {
    StartsWith(line, "@@") && ParseHunkHeader(line).Failure?
  }

  lemma {:induction false} HeaderLinesSkip(lines: seq<string>, a: nat, b: nat)
    requires a <= b <= |lines|
    requires forall k :: a <= k < b ==> !StartsWith(lines[k], "@@")
    ensures HeaderLines(lines[a..]) == HeaderLines(lines[b..])
    decreases b - a
  {
    if a < b {
      HeaderLinesAt(lines, a);
      HeaderLinesSkip(lines, a + 1, b);
    }
  }

  /** `HeaderLines` counts line `i` and then the lines after it. */
  lemma HeaderLinesAt(lines: seq<string>, i: nat)
    requires i < |lines|
    ensures HeaderLines(lines[i..]) == (if StartsWith(lines[i], "@@") then 1 else 0) + HeaderLines(lines[i + 1..])
  {
    assert lines[i..][1..] == lines[i + 1..];
  }

  /** Lines `a` to `b` hold no bad header, so the bad headers from `a` on are those from `b` on. */
  lemma BadHeadersFrom(lines: seq<string>, a: nat, b: nat)
    requires a <= b <= |lines|
    requires forall k :: a <= k < b ==> !StartsWith(lines[k], "@@") || ParseHunkHeader(lines[k]).Success?
    ensures (exists k :: a <= k < |lines| && BadHeader(lines[k])) <==> (exists k :: b <= k < |lines| && BadHeader(lines[k]))
  {
    if exists k :: a <= k < |lines| && BadHeader(lines[k]) {
      var k :| a <= k < |lines| && BadHeader(lines[k]);
      assert k >= b;
    }
  }

  /** Line `i` is a bad header, so some line from `i` on is one. */
  lemma BadHeaderHere(lines: seq<string>, i: nat)
    requires i < |lines| && StartsWith(lines[i], "@@") && ParseHunkHeader(lines[i]).Failure?
    ensures exists k :: i <= k < |lines| && BadHeader(lines[k])
  {
    assert BadHeader(lines[i]);
  }

  /** Past the last line there are no hunks and no header lines. */
  lemma HunksEnd(lines: seq<string>)
    ensures Hunks(lines, |lines|) == Success([])
    ensures HeaderLines(lines[|lines|..]) == 0
  {
  }

  /**
   * From line `i` on: one hunk per header line, and a failure exactly
   * when some header line lacks its range words.
   */
  lemma {:induction false} HunksPerHeader(lines: seq<string>, i: nat)
    requires i <= |lines|
    ensures Hunks(lines, i).Success? ==> |Hunks(lines, i).value| == HeaderLines(lines[i..])
    ensures Hunks(lines, i).Failure? <==> exists k :: i <= k < |lines| && BadHeader(lines[k])
    decreases |lines| - i
  {
    hide *;
    if i == |lines| {
      HunksEnd(lines);
    } else {
      HunksAt(lines, i);
      HeaderLinesAt(lines, i);
      if !StartsWith(lines[i], "@@") {
        HunksPerHeader(lines, i + 1);
        BadHeadersFrom(lines, i, i + 1);
      } else if ParseHunkHeader(lines[i]).Success? {
        var ranges := ParseHunkHeader(lines[i]).value;
        var body := Body(lines, i + 1, ranges.1.start, map[]);
        BodyShape(lines, i + 1, ranges.1.start, map[]);
        HunksPerHeader(lines, body.i);
        HeaderLinesSkip(lines, i + 1, body.i);
        BadHeadersFrom(lines, i, body.i);
      } else {
        BadHeaderHere(lines, i);
      }
    }
  }

  /**
   * `parseDiff`: one hunk per line of the output that starts with `@@` (the
   * lines before the first are skipped), or a failure exactly when one of
   * those lines has no current-side range.
   */
  lemma ParseDiffHunkCount(data: string)
    ensures var lines := Split(data, '\n');
      && (ParseDiff(data).Success? ==> |ParseDiff(data).value| == HeaderLines(lines))
      && (ParseDiff(data).Failure? <==> exists k :: 0 <= k < |lines| && BadHeader(lines[k]))
  {
    var lines := Split(data, '\n');
    if data != [] {
      var first := FirstHeader(lines, 0);
      HunksPerHeader(lines, first);
      HeaderLinesSkip(lines, 0, first);
      assert lines[0..] == lines;
    } else {
      assert lines == [""];
      assert !StartsWith("", "@@");
    }
  }
}

/**
 * Properties of one hunk: where its body ends, what its `contents` holds,
 * and how added and context lines are numbered when nothing is deleted.
 */
module HunkBodyLemmas {

  import opened Wrappers
  import opened JsString
  import opened JsNumber
  import opened GitDiff

  /** A line that takes a line number of its own: an added or a context line. */
  predicate TakesNumber(line: string) {
    StartsWith(line, "+") || StartsWith(line, " ")
  }

  /** The entry of an added or context line that is not part of a change. */
  function EntryOf(line: string): HunkLine {
    if StartsWith(line, "+") then HunkLine(Some(Tail(line)), None, Added)
    else HunkLine(Some(Tail(line)), Some(Tail(line)), Unchanged)
  }

  /** How many of `lines[i..k]` take a line number. */
  function NumberedBetween(lines: seq<string>, i: nat, k: nat): nat
    requires i <= k <= |lines|
    decreases k - i
  {
    if i == k then 0 else (if TakesNumber(lines[i]) then 1 else 0) + NumberedBetween(lines, i + 1, k)
  }

  /** `lines[i..j]` holds no deleted line and no header. */
  predicate NoDeletions(lines: seq<string>, i: nat, j: nat)
    requires i <= j <= |lines|
  {
    forall k :: i <= k < j ==> !StartsWith(lines[k], "-") && !StartsWith(lines[k], "@@")
  }

  /** The body of a hunk ends at the next header line, or at the end of the text. */
  lemma BodyEndsAtHeader(lines: seq<string>, i: nat, n: JsNum, m: map<JsNum, HunkLine>)
    requires i <= |lines|
    ensures Body(lines, i, n, m).i == FirstHeader(lines, i)
  {
    BodyShape(lines, i, n, m);
  }

  /** One line of a body without deletions. */
  lemma StepPlain(lines: seq<string>, i: nat, n: int, m: map<JsNum, HunkLine>)
    requires i < |lines| && !StartsWith(lines[i], "-")
    ensures var s := Step(lines, i, Num(n), m);
      && s.i == i + 1
      && (TakesNumber(lines[i]) ==> s.n == Num(n + 1) && s.m == m[Num(n) := EntryOf(lines[i])])
      && (!TakesNumber(lines[i]) ==> s.n == Num(n) && s.m == m)
  {
  }

  /**
   * A body without deleted lines ends at `j` with the counter advanced by
   * the number of added and context lines, and adds exactly the entries
   * numbered from `n` on.
   */
  lemma {:induction false} BodyWithoutDeletionsKeys(lines: seq<string>, i: nat, j: nat, n: int, m: map<JsNum, HunkLine>)
    requires i <= j <= |lines| && NoDeletions(lines, i, j)
    requires j == |lines| || StartsWith(lines[j], "@@")
    ensures var r := Body(lines, i, Num(n), m);
      var c := NumberedBetween(lines, i, j);
      && r.i == j && r.n == Num(n + c)
      && (NaN in r.m <==> NaN in m)
      && (forall v :: Num(v) in r.m <==> Num(v) in m || n <= v < n + c)
    decreases j - i
  {
    hide *;
    if i == j {
      BodyAtEnd(lines, i, Num(n), m);
    } else {
      NoDeletionsAt(lines, i, j);
      BodyPlainStep(lines, i, n, m);
      NumberedBetweenAt(lines, i, j);
      var b := if TakesNumber(lines[i]) then 1 else 0;
      var m1 := if TakesNumber(lines[i]) then m[Num(n) := EntryOf(lines[i])] else m;
      BodyWithoutDeletionsKeys(lines, i + 1, j, n + b, m1);
    }
  }

  /**
   * A body without deleted lines gives its `k`-th added or context line,
   * counting from 0, the entry numbered `n + k`.
   */
  lemma {:induction false} BodyWithoutDeletionsEntries(lines: seq<string>, i: nat, j: nat, n: int, m: map<JsNum, HunkLine>)
    requires i <= j <= |lines| && NoDeletions(lines, i, j)
    requires j == |lines| || StartsWith(lines[j], "@@")
    ensures var r := Body(lines, i, Num(n), m);
      forall k :: i <= k < j && TakesNumber(lines[k]) ==>
        Num(n + NumberedBetween(lines, i, k)) in r.m
        && r.m[Num(n + NumberedBetween(lines, i, k))] == EntryOf(lines[k])
    decreases j - i
  {
    hide *;
    if i < j {
      NoDeletionsAt(lines, i, j);
      BodyPlainStep(lines, i, n, m);
      var b := if TakesNumber(lines[i]) then 1 else 0;
      var m1 := if TakesNumber(lines[i]) then m[Num(n) := EntryOf(lines[i])] else m;
      BodyWithoutDeletionsEntries(lines, i + 1, j, n + b, m1);
      BodyShape(lines, i + 1, Num(n + b), m1);
      EntriesStep(lines, i, j, n, m1, Body(lines, i + 1, Num(n + b), m1).m);
    }
  }

  /** A body read from a header line or from the end stops at once. */
  lemma BodyAtEnd(lines: seq<string>, i: nat, n: JsNum, m: map<JsNum, HunkLine>)
    requires i <= |lines| && (i == |lines| || StartsWith(lines[i], "@@"))
    ensures Body(lines, i, n, m) == Cursor(i, n, m)
    ensures NumberedBetween(lines, i, i) == 0
  {
  }

  /** The first line of a stretch without deletions, and the stretch after it. */
  lemma NoDeletionsAt(lines: seq<string>, i: nat, j: nat)
    requires i < j <= |lines| && NoDeletions(lines, i, j)
    ensures !StartsWith(lines[i], "-") && !StartsWith(lines[i], "@@") && NoDeletions(lines, i + 1, j)
  {
  }

  /** `NumberedBetween` counts line `i` and then the lines after it. */
  lemma NumberedBetweenAt(lines: seq<string>, i: nat, k: nat)
    requires i < k <= |lines|
    ensures NumberedBetween(lines, i, k) == (if TakesNumber(lines[i]) then 1 else 0) + NumberedBetween(lines, i + 1, k)
  {
  }

  /** A body goes past a line that is neither a deletion nor a header by one plain step. */
  lemma BodyPlainStep(lines: seq<string>, i: nat, n: int, m: map<JsNum, HunkLine>)
    requires i < |lines| && !StartsWith(lines[i], "-") && !StartsWith(lines[i], "@@")
    ensures Body(lines, i, Num(n), m) ==
      if TakesNumber(lines[i]) then Body(lines, i + 1, Num(n + 1), m[Num(n) := EntryOf(lines[i])])
      else Body(lines, i + 1, Num(n), m)
  {
    StepPlain(lines, i, n, m);
  }

  /**
   * The entries of the lines after `i` sit one number further on when line
   * `i` takes a number, and the entry of line `i` itself stays in place.
   */
  lemma EntriesStep(lines: seq<string>, i: nat, j: nat, n: int, m1: map<JsNum, HunkLine>, rm: map<JsNum, HunkLine>)
    requires i < j <= |lines|
    requires TakesNumber(lines[i]) ==> Num(n) in m1 && m1[Num(n)] == EntryOf(lines[i])
    requires var b := if TakesNumber(lines[i]) then 1 else 0;
      && Settled(m1, rm, Num(n + b))
      && forall k :: i + 1 <= k < j && TakesNumber(lines[k]) ==>
        Num(n + b + NumberedBetween(lines, i + 1, k)) in rm
        && rm[Num(n + b + NumberedBetween(lines, i + 1, k))] == EntryOf(lines[k])
    ensures forall k :: i <= k < j && TakesNumber(lines[k]) ==>
      Num(n + NumberedBetween(lines, i, k)) in rm
      && rm[Num(n + NumberedBetween(lines, i, k))] == EntryOf(lines[k])
  {
    var b := if TakesNumber(lines[i]) then 1 else 0;
    forall k | i <= k < j && TakesNumber(lines[k])
      ensures Num(n + NumberedBetween(lines, i, k)) in rm
        && rm[Num(n + NumberedBetween(lines, i, k))] == EntryOf(lines[k])
    {
      if k == i {
        assert NumberedBetween(lines, i, i) == 0;
        assert rm[Num(n)] == m1[Num(n)];
      } else {
        NumberedBetweenAt(lines, i, k);
      }
    }
  }

  /** Joining non-empty fields and ending them with a separator splits back into the fields and an empty one. */
  lemma JoinedWithNewline(parts: seq<string>)
    requires |parts| > 0 && forall k :: 0 <= k < |parts| ==> '\n' !in parts[k]
    ensures Split(Join(parts, '\n') + ['\n'], '\n') == parts + [[]]
  {
    var s := Join(parts, '\n');
    var last := parts[|parts| - 1];
    var init := parts[..|parts| - 1];
    SplitJoin(parts, '\n');
    assert Split(s, '\n') == parts;
    SplitAppend(s, ['\n'], '\n');
    assert Split(s + ['\n'], '\n') == init + Split(last + ['\n'], '\n');
    SplitTwo(last, [], '\n');
    assert last + ['\n'] + [] == last + ['\n'];
    assert Split(last + ['\n'], '\n') == [last, []];
    SnocEmpty(parts);
  }

  lemma SnocEmpty(parts: seq<string>)
    requires |parts| > 0
    ensures parts[..|parts| - 1] + [parts[|parts| - 1], []] == parts + [[]]
  {
    assert parts[..|parts| - 1] + [parts[|parts| - 1]] == parts;
  }

  /**
   * The hunk read at header line `i` takes its ranges from the header and
   * numbers its body from the start of the current range; the body ends at
   * the next header.
   */
  lemma HunkAt(lines: seq<string>, i: nat)
    requires i < |lines| && StartsWith(lines[i], "@@") && Hunks(lines, i).Success?
    ensures var hs := Hunks(lines, i).value;
      var e := FirstHeader(lines, i + 1);
      var ranges := ParseHunkHeader(lines[i]);
      && ranges.Success? && |hs| > 0
      && hs[0].previous == ranges.value.0 && hs[0].current == ranges.value.1
      && hs[0].lines == Body(lines, i + 1, ranges.value.1.start, map[]).m
      && hs[0].contents == Join(lines[i + 1..e], '\n') + "\n"
  {
    HunksAt(lines, i);
    var ranges := ParseHunkHeader(lines[i]).value;
    var body := Body(lines, i + 1, ranges.1.start, map[]);
    BodyEndsAtHeader(lines, i + 1, ranges.1.start, map[]);
    assert Hunks(lines, i).value[0] == HunkOf(lines, i, ranges, body);
  }

  /**
   * The `contents` of the hunk at header line `i` holds exactly the lines
   * up to the next header, each ended by a newline: a lone newline for an
   * empty body.
   */
  lemma HunkContents(lines: seq<string>, i: nat)
    requires i < |lines| && StartsWith(lines[i], "@@") && Hunks(lines, i).Success?
    requires forall k :: 0 <= k < |lines| ==> '\n' !in lines[k]
    ensures var hs := Hunks(lines, i).value;
      var e := FirstHeader(lines, i + 1);
      && |hs| > 0
      && (e == i + 1 ==> hs[0].contents == "\n")
      && (e > i + 1 ==> Split(hs[0].contents, '\n') == lines[i + 1..e] + [""])
  {
    hide *;
    HunkAt(lines, i);
    var e := FirstHeader(lines, i + 1);
    ContentsLines(lines[i + 1..e], Hunks(lines, i).value[0].contents);
  }

  /** Text built as `parts.join('\n') + '\n'` splits back into the parts and an empty field. */
  lemma ContentsLines(parts: seq<string>, contents: string)
    requires forall k :: 0 <= k < |parts| ==> '\n' !in parts[k]
    requires contents == Join(parts, '\n') + "\n"
    ensures parts == [] ==> contents == "\n"
    ensures parts != [] ==> Split(contents, '\n') == parts + [""]
  {
    if parts != [] {
      JoinedWithNewline(parts);
      assert "\n" == ['\n'] && "" == [];
    }
  }

  /**
   * When the body of the hunk at header line `i` deletes nothing and its
   * current range starts at `n`, its line map numbers the added and context
   * lines `n, n + 1, ...` in order and has no other entry.
   */
  lemma HunkNumbering(lines: seq<string>, i: nat, n: int)
    requires i < |lines| && StartsWith(lines[i], "@@") && Hunks(lines, i).Success?
    requires ParseHunkHeader(lines[i]).Success? && ParseHunkHeader(lines[i]).value.1.start == Num(n)
    requires NoDeletions(lines, i + 1, FirstHeader(lines, i + 1))
    ensures |Hunks(lines, i).value| > 0
    ensures NumberedFrom(lines, i + 1, FirstHeader(lines, i + 1), n, Hunks(lines, i).value[0].lines)
  {
    hide *;
    HunkLines(lines, i);
    BodyNumberedToHeader(lines, i + 1, n, Hunks(lines, i).value[0].lines);
  }

  /** A body without deletions up to the next header numbers its lines from `n`. */
  lemma BodyNumberedToHeader(lines: seq<string>, i: nat, n: int, m: map<JsNum, HunkLine>)
    requires i <= |lines| && NoDeletions(lines, i, FirstHeader(lines, i))
    requires m == Body(lines, i, Num(n), map[]).m
    ensures NumberedFrom(lines, i, FirstHeader(lines, i), n, m)
  {
    BodyNumbering(lines, i, FirstHeader(lines, i), n, m);
  }

  /** The line map of the hunk at header line `i` is its body read from the current range's start. */
  lemma HunkLines(lines: seq<string>, i: nat)
    requires i < |lines| && StartsWith(lines[i], "@@") && Hunks(lines, i).Success?
    ensures ParseHunkHeader(lines[i]).Success? && |Hunks(lines, i).value| > 0
    ensures Hunks(lines, i).value[0].lines == Body(lines, i + 1, ParseHunkHeader(lines[i]).value.1.start, map[]).m
  {
    HunksAt(lines, i);
    var ranges := ParseHunkHeader(lines[i]).value;
    var body := Body(lines, i + 1, ranges.1.start, map[]);
    assert Hunks(lines, i).value[0] == HunkOf(lines, i, ranges, body);
  }

  /**
   * The line map `m` numbers the added and context lines of `lines[i..j]`
   * consecutively from `n`, in order, and has no other entry.
   */
  ghost predicate NumberedFrom(lines: seq<string>, i: nat, j: nat, n: int, m: map<JsNum, HunkLine>)
    requires i <= j <= |lines|
  {
    && NaN !in m
    && (forall v :: Num(v) in m <==> n <= v < n + NumberedBetween(lines, i, j))
    && (forall k :: i <= k < j && TakesNumber(lines[k]) ==>
          Num(n + NumberedBetween(lines, i, k)) in m && m[Num(n + NumberedBetween(lines, i, k))] == EntryOf(lines[k]))
  }

  /** `BodyWithoutDeletionsKeys` and `BodyWithoutDeletionsEntries` for a body read into `m` from scratch. */
  lemma BodyNumbering(lines: seq<string>, i: nat, j: nat, n: int, m: map<JsNum, HunkLine>)
    requires i <= j <= |lines| && NoDeletions(lines, i, j)
    requires j == |lines| || StartsWith(lines[j], "@@")
    requires m == Body(lines, i, Num(n), map[]).m
    ensures NumberedFrom(lines, i, j, n, m)
  {
    BodyWithoutDeletionsKeys(lines, i, j, n, map[]);
    BodyWithoutDeletionsEntries(lines, i, j, n, map[]);
  }
}

/**
 * Parsing of zero-context unified diffs (`git diff --minimal -U0`), the
 * "Unified Format" of section 2.2.2 of the GNU diffutils manual: each hunk
 * starts with an `@@ -a,b +c,d @@` header and is followed by `-`, `+` and
 * ` ` body lines. Every hunk records, per current-file line number, the
 * previous and current text of that line and how it changed.
 */
module GitDiff {

  import opened Wrappers
  import opened JsString
  import opened JsNumber

  datatype LineState = Added | Changed | Removed | Unchanged

  /** One line of a hunk: its text before and after the change, where it has one. */
  datatype HunkLine = HunkLine(current: Option<string>, previous: Option<string>, state: LineState)

  /** One side of a hunk header: `start,count`, with the inclusive last line. */
  datatype HunkRange = HunkRange(count: int, start: JsNum, end: JsNum)

  /** A hunk: its body text, both ranges, and its line-number -> line map. */
  datatype Hunk = Hunk(contents: string, current: HunkRange, previous: HunkRange, lines: map<JsNum, HunkLine>)

  /** The `TypeError` thrown when a header has no current-side range to slice. */
  datatype DiffError = MissingCurrentRange(header: string)

  /** The parse position inside a hunk body: next line, next line number, lines so far. */
  datatype Cursor = Cursor(i: nat, n: JsNum, m: map<JsNum, HunkLine>)

  /**
   * `parseHunkHeaderPart`: `start[,count]`. A missing, zero or non-numeric
   * count is 1, and `end` is the last line the range covers.
   */
  function ParseHunkHeaderPart(part: string): (r: HunkRange)
    ensures r.count != 0
    ensures r.end == Add(r.start, r.count - 1)
  {
    var fields := Split(part, ',');
    var start := ToNumber(fields[0]);
    var count := OrElse(if |fields| > 1 then ToNumber(fields[1]) else NaN, 1);
    HunkRange(count, start, Add(start, count - 1))
  }

  /** `line.split('@@')[1]` for a line that starts with `@@`: the text up to the next `@@`. */
  function HeaderText(line: string): string
    requires StartsWith(line, "@@")
  {
    var stop := IndexOfString(line, "@@", 2);
    line[2..if stop.Some? then stop.value else |line|]
  }

  /** The header text runs from the opening `@@` to the next `@@`, or to the end of the line. */
  lemma HeaderTextStops(line: string)
    requires StartsWith(line, "@@")
    ensures var r := HeaderText(line);
      && 2 + |r| <= |line| && r == line[2..2 + |r|]
      && (2 + |r| == |line| || MatchAt(line, "@@", 2 + |r|))
      && (forall q :: 2 <= q < 2 + |r| ==> !MatchAt(line, "@@", q))
  {
  }

  /**
   * The header of a hunk: `(previous, current)` read from the first two
   * space-separated words between the `@@` marks, each with its sign
   * character dropped. Fewer than two words is the `TypeError` of the source.
   */
  function ParseHunkHeader(line: string): (r: Result<(HunkRange, HunkRange), DiffError>)
    requires StartsWith(line, "@@")
    ensures r.Failure? <==> ' ' !in Trim(HeaderText(line))
    ensures r.Failure? ==> r.error == MissingCurrentRange(line)
    ensures r.Success? ==> r.value.0.count != 0 && r.value.1.count != 0
  {
    var text := Trim(HeaderText(line));
    CountCharZero(text, ' ');
    var words := Split(text, ' ');
    if |words| < 2 then Failure(MissingCurrentRange(line))
    else Success((ParseHunkHeaderPart(Tail(words[0])), ParseHunkHeaderPart(Tail(words[1]))))
  }

  /**
   * Reading a header fails exactly when its trimmed text has no space, so
   * that there is no second word.
   */
  lemma HeaderFailure(line: string)
    requires StartsWith(line, "@@")
    ensures ParseHunkHeader(line).Failure? <==> CountChar(Trim(HeaderText(line)), ' ') == 0
  {
  }

  /** The entry of a deleted line. */
  function RemovedLine(line: string): HunkLine {
    HunkLine(None, Some(Tail(line)), Removed)
  }

  /** The entry of an added line numbered `n`, given the entries so far. */
  function AddedLine(m: map<JsNum, HunkLine>, n: JsNum, line: string): HunkLine {
    if n in m then m[n].(current := Some(Tail(line)), state := Changed)
    else HunkLine(Some(Tail(line)), None, Added)
  }

  /** Entries below the counter `n` are in `m2` exactly as they were in `m`. */
  ghost predicate Settled(m: map<JsNum, HunkLine>, m2: map<JsNum, HunkLine>, n: JsNum) {
    m.Keys <= m2.Keys
    && (n.Num? ==> forall v :: v < n.v && Num(v) in m ==> m2[Num(v)] == m[Num(v)])
  }

  /** The counter never moves backwards and never turns from a number into NaN. */
  ghost predicate Advanced(n: JsNum, n2: JsNum) {
    n.Num? ==> n2.Num? && n2.v >= n.v
  }

  /** A run of `-` lines, numbered from `n`, each recorded as removed. */
  function DeleteRun(lines: seq<string>, i: nat, n: JsNum, m: map<JsNum, HunkLine>): (r: Cursor)
    requires i <= |lines|
    ensures i <= r.i <= |lines|
    decreases |lines| - i
  {
    if i < |lines| && StartsWith(lines[i], "-") then
      DeleteRun(lines, i + 1, Add(n, 1), m[n := RemovedLine(lines[i])])
    else Cursor(i, n, m)
  }

  /**
   * A run of deleted lines stops at the first line that does not start
   * with `-`; the counter never moves back, and entries below it stay.
   */
  lemma {:induction false} DeleteRunShape(lines: seq<string>, i: nat, n: JsNum, m: map<JsNum, HunkLine>)
    requires i <= |lines|
    ensures var r := DeleteRun(lines, i, n, m);
      && (forall k :: i <= k < r.i ==> StartsWith(lines[k], "-"))
      && (r.i == |lines| || !StartsWith(lines[r.i], "-"))
      && Advanced(n, r.n) && Settled(m, r.m, n)
    decreases |lines| - i
  {
    if i < |lines| && StartsWith(lines[i], "-") {
      var m1 := m[n := RemovedLine(lines[i])];
      DeleteRunShape(lines, i + 1, Add(n, 1), m1);
      SettledStep(m, m1, DeleteRun(lines, i + 1, Add(n, 1), m1).m, n, Add(n, 1));
    }
  }

  /** Entries below the counter survive an update at the counter and a later settled stretch. */
  lemma SettledStep(m: map<JsNum, HunkLine>, m1: map<JsNum, HunkLine>, m2: map<JsNum, HunkLine>, n: JsNum, n1: JsNum)
    requires m1.Keys == m.Keys + {n} && (forall x :: x in m && x != n ==> m1[x] == m[x])
    requires n1 == Add(n, 1) && Settled(m1, m2, n1)
    ensures Settled(m, m2, n)
  {
  }

  /**
   * A run of `+` lines, numbered from `n`: a line whose number already has
   * an entry turns that entry into a change, any other line is added.
   */
  function AddRun(lines: seq<string>, i: nat, n: JsNum, m: map<JsNum, HunkLine>): (r: Cursor)
    requires i <= |lines|
    ensures i <= r.i <= |lines|
    decreases |lines| - i
  {
    if i < |lines| && StartsWith(lines[i], "+") then
      AddRun(lines, i + 1, Add(n, 1), m[n := AddedLine(m, n, lines[i])])
    else Cursor(i, n, m)
  }

  /**
   * A run of added lines stops at the first line that does not start with
   * `+`; the counter never moves back, and entries below it stay.
   */
  lemma {:induction false} AddRunShape(lines: seq<string>, i: nat, n: JsNum, m: map<JsNum, HunkLine>)
    requires i <= |lines|
    ensures var r := AddRun(lines, i, n, m);
      && (forall k :: i <= k < r.i ==> StartsWith(lines[k], "+"))
      && (r.i == |lines| || !StartsWith(lines[r.i], "+"))
      && Advanced(n, r.n) && Settled(m, r.m, n)
    decreases |lines| - i
  {
    if i < |lines| && StartsWith(lines[i], "+") {
      var m1 := m[n := AddedLine(m, n, lines[i])];
      AddRunShape(lines, i + 1, Add(n, 1), m1);
      SettledStep(m, m1, AddRun(lines, i + 1, Add(n, 1), m1).m, n, Add(n, 1));
    }
  }

  /** One pass of the body loop, starting at a line that is not a header. */
  function Step(lines: seq<string>, i: nat, n: JsNum, m: map<JsNum, HunkLine>): (r: Cursor)
    requires i < |lines|
    ensures i < r.i <= |lines|
  {
    var line := lines[i];
    if StartsWith(line, "-") then
      var deleted := DeleteRun(lines, i, n, m);
      if deleted.i < |lines| && StartsWith(lines[deleted.i], "+") then
        AddRun(lines, deleted.i, n, deleted.m)
      else deleted
    else if StartsWith(line, "+") then
      Cursor(i + 1, Add(n, 1), m[n := HunkLine(Some(Tail(line)), None, Added)])
    else if StartsWith(line, " ") then
      Cursor(i + 1, Add(n, 1), m[n := HunkLine(Some(Tail(line)), Some(Tail(line)), Unchanged)])
    else Cursor(i + 1, n, m)
  }

  /**
   * One pass of the body loop reads, past its first line, only `-` and `+`
   * lines; the counter never moves back, and entries below it stay.
   */
  lemma StepShape(lines: seq<string>, i: nat, n: JsNum, m: map<JsNum, HunkLine>)
    requires i < |lines|
    ensures var r := Step(lines, i, n, m);
      && (forall k :: i < k < r.i ==> StartsWith(lines[k], "-") || StartsWith(lines[k], "+"))
      && Advanced(n, r.n) && Settled(m, r.m, n)
  {
    if StartsWith(lines[i], "-") {
      DeleteRunShape(lines, i, n, m);
      var deleted := DeleteRun(lines, i, n, m);
      if deleted.i < |lines| && StartsWith(lines[deleted.i], "+") {
        AddRunShape(lines, deleted.i, n, deleted.m);
      }
    }
  }

  /** A line starting with `-` or `+` never starts a new hunk. */
  lemma SignedLineIsNotHeader(s: string)
    requires StartsWith(s, "-") || StartsWith(s, "+")
    ensures !StartsWith(s, "@@")
  {
    assert s[0] == s[..1][0];
  }

  /** The body of one hunk: every line up to the next header or the end of the text. */
  function Body(lines: seq<string>, i: nat, n: JsNum, m: map<JsNum, HunkLine>): (r: Cursor)
    requires i <= |lines|
    ensures i <= r.i <= |lines|
    decreases |lines| - i
  {
    if i < |lines| && !StartsWith(lines[i], "@@") then
      var s := Step(lines, i, n, m);
      Body(lines, s.i, s.n, s.m)
    else Cursor(i, n, m)
  }

  /**
   * A hunk body ends at the next header line or at the end of the text and
   * holds no header line; the counter never moves back, and entries below
   * it stay.
   */
  lemma {:induction false} BodyShape(lines: seq<string>, i: nat, n: JsNum, m: map<JsNum, HunkLine>)
    requires i <= |lines|
    ensures var r := Body(lines, i, n, m);
      && (r.i == |lines| || StartsWith(lines[r.i], "@@"))
      && (forall k :: i <= k < r.i ==> !StartsWith(lines[k], "@@"))
      && Advanced(n, r.n) && Settled(m, r.m, n)
    decreases |lines| - i
  {
    if i < |lines| && !StartsWith(lines[i], "@@") {
      var s := Step(lines, i, n, m);
      StepShape(lines, i, n, m);
      forall k | i < k < s.i ensures !StartsWith(lines[k], "@@") {
        SignedLineIsNotHeader(lines[k]);
      }
      BodyShape(lines, s.i, s.n, s.m);
    }
  }

  /** The hunks that start at or after line `i`. */
  function Hunks(lines: seq<string>, i: nat): Result<seq<Hunk>, DiffError>
    requires i <= |lines|
    decreases |lines| - i
  {
    if i == |lines| then Success([])
    else if !StartsWith(lines[i], "@@") then Hunks(lines, i + 1)
    else
      match ParseHunkHeader(lines[i])
      case Failure(e) => Failure(e)
      case Success(ranges) =>
        var body := Body(lines, i + 1, ranges.1.start, map[]);
        Prepend(HunkOf(lines, i, ranges, body), Hunks(lines, body.i))
  }

  /** The hunk whose header is line `i` and whose body has been read into `body`. */
  function HunkOf(lines: seq<string>, i: nat, ranges: (HunkRange, HunkRange), body: Cursor): Hunk
    requires i < body.i <= |lines|
  {
    Hunk(Join(lines[i + 1..body.i], '\n') + "\n", ranges.1, ranges.0, body.m)
  }

  /** `hunk` followed by the hunks after it, or the failure reading those. */
  function Prepend(hunk: Hunk, rest: Result<seq<Hunk>, DiffError>): (r: Result<seq<Hunk>, DiffError>)
    ensures r.Success? <==> rest.Success?
    ensures r.Success? ==> r.value == [hunk] + rest.value
  {
    match rest
    case Failure(e) => Failure(e)
    case Success(hs) => Success([hunk] + hs)
  }

  /** One pass of the outer loop of the parser, from line `i`. */
  lemma HunksAt(lines: seq<string>, i: nat)
    requires i < |lines|
    ensures !StartsWith(lines[i], "@@") ==> Hunks(lines, i) == Hunks(lines, i + 1)
    ensures StartsWith(lines[i], "@@") && ParseHunkHeader(lines[i]).Failure? ==> Hunks(lines, i).Failure?
    ensures StartsWith(lines[i], "@@") && ParseHunkHeader(lines[i]).Success? ==>
      var ranges := ParseHunkHeader(lines[i]).value;
      var body := Body(lines, i + 1, ranges.1.start, map[]);
      Hunks(lines, i) == Prepend(HunkOf(lines, i, ranges, body), Hunks(lines, body.i))
  {
  }

  /** The index of the first header line at or after `i`, or the end. */
  function FirstHeader(lines: seq<string>, i: nat): (r: nat)
    requires i <= |lines|
    ensures i <= r <= |lines|
    ensures r == |lines| || StartsWith(lines[r], "@@")
    ensures forall k :: i <= k < r ==> !StartsWith(lines[k], "@@")
    decreases |lines| - i
  {
    if i == |lines| || StartsWith(lines[i], "@@") then i else FirstHeader(lines, i + 1)
  }

  /** `parseDiff(data)`: no hunks for empty output, otherwise one per header line. */
  function ParseDiff(data: string): (r: Result<seq<Hunk>, DiffError>)
    ensures data == [] ==> r == Success([])
  {
    if data == [] then Success([])
    else
      var lines := Split(data, '\n');
      Hunks(lines, FirstHeader(lines, 0))
  }
}

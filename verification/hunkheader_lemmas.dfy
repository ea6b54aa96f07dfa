/** Properties of hunk-header parsing: counts default to 1, and headers round-trip. */
module HunkHeaderLemmas {

  import opened Wrappers
  import opened JsString
  import opened JsNumber
  import opened GitDiff

  /**
   * A range read from text without a minus sign has a count of at least 1,
   * so its last line is never before its first.
   */
  lemma CountAtLeastOne(part: string)
    requires '-' !in part
    ensures ParseHunkHeaderPart(part).count >= 1
    ensures ParseHunkHeaderPart(part).start.Num? ==>
      ParseHunkHeaderPart(part).end.v >= ParseHunkHeaderPart(part).start.v
  {
    var fields := Split(part, ',');
    if |fields| > 1 && ToNumber(fields[1]).Num? && ToNumber(fields[1]).v < 0 {
      ToNumberNegative(fields[1]);
      SplitFieldChars(part, ',', 1, '-');
    }
  }

  /** `start,count` as git prints it. */
  function FormatRange(start: nat, count: nat): string {
    Decimal(start) + "," + Decimal(count)
  }

  /** The header git prints for a hunk. */
  function FormatHeader(prevStart: nat, prevCount: nat, curStart: nat, curCount: nat): string {
    "@@ -" + FormatRange(prevStart, prevCount) + " +" + FormatRange(curStart, curCount) + " @@"
  }

  /** The range a printed `start,count` stands for: a zero count reads as 1. */
  function RangeOf(start: nat, count: nat): HunkRange {
    var c := if count == 0 then 1 else count;
    HunkRange(c, Num(start), Num(start + c - 1))
  }

  lemma DecimalChars(n: nat)
    ensures forall ch :: ch in Decimal(n) ==> IsDigit(ch)
  {
  }

  /** A printed range reads back as the range it was printed from. */
  lemma RangeRoundTrip(start: nat, count: nat)
    ensures ParseHunkHeaderPart(FormatRange(start, count)) == RangeOf(start, count)
  {
    DecimalChars(start);
    DecimalChars(count);
    var s, c := Decimal(start), Decimal(count);
    assert FormatRange(start, count) == s + [','] + c;
    SplitTwo(s, c, ',');
    var fields := Split(FormatRange(start, count), ',');
    assert fields == [s, c];
    ToNumberDecimal(start);
    ToNumberDecimal(count);
    var r := ParseHunkHeaderPart(FormatRange(start, count));
    assert r.start == ToNumber(fields[0]) == Num(start);
    assert r.count == OrElse(ToNumber(fields[1]), 1) == RangeOf(start, count).count;
  }

  lemma RangeChars(start: nat, count: nat)
    ensures forall ch :: ch in FormatRange(start, count) ==> IsDigit(ch) || ch == ','
  {
    DecimalChars(start);
    DecimalChars(count);
  }

  /** A printed start without a count reads back with a count of 1. */
  lemma RangeWithoutCount(start: nat)
    ensures ParseHunkHeaderPart(Decimal(start)) == RangeOf(start, 1)
  {
    DecimalChars(start);
    SplitNoSeparator(Decimal(start), ',');
    ToNumberDecimal(start);
  }

  /** The text between the `@@` marks of a printed header. */
  lemma HeaderTextOf(line: string, mid: string)
    requires line == "@@" + mid + "@@" && '@' !in mid
    ensures HeaderText(line) == mid
  {
    var r := HeaderText(line);
    forall q | 2 <= q < 2 + |mid| ensures !MatchAt(line, "@@", q) {
      assert line[q] == mid[q - 2];
      assert q + 2 <= |line| ==> line[q..q + 2][0] == line[q];
    }
    assert line[2 + |mid|..] == "@@";
    assert MatchAt(line, "@@", 2 + |mid|);
    assert |r| == |mid|;
    assert line[2..2 + |mid|] == mid;
  }

  /** The words between the `@@` marks of a header `@@ a b @@`. */
  lemma HeaderWords(a: string, b: string, line: string)
    requires |a| > 0 && |b| > 0 && !IsJsSpace(a[0]) && !IsJsSpace(b[|b| - 1])
    requires ' ' !in a && ' ' !in b && '@' !in a && '@' !in b
    requires line == "@@" + ([' '] + (a + [' '] + b) + [' ']) + "@@"
    ensures StartsWith(line, "@@")
    ensures Split(Trim(HeaderText(line)), ' ') == [a, b]
  {
    var t := a + [' '] + b;
    var mid := [' '] + t + [' '];
    assert '@' !in mid;
    assert line[..2] == "@@";
    HeaderTextOf(line, mid);
    TrimPadded(t);
    SplitTwo(a, b, ' ');
  }

  /** A printed header reads back as its two ranges, previous first. */
  lemma HeaderRoundTrip(prevStart: nat, prevCount: nat, curStart: nat, curCount: nat)
    ensures ParseHunkHeader(FormatHeader(prevStart, prevCount, curStart, curCount))
      == Success((RangeOf(prevStart, prevCount), RangeOf(curStart, curCount)))
  {
    hide *;
    var p, c := FormatRange(prevStart, prevCount), FormatRange(curStart, curCount);
    var line := FormatHeader(prevStart, prevCount, curStart, curCount);
    HeaderLayout(prevStart, prevCount, curStart, curCount);
    HeaderWords("-" + p, "+" + c, line);
    HeaderOfTwoWords(line, "-" + p, "+" + c);
    RangeRoundTrip(prevStart, prevCount);
    RangeRoundTrip(curStart, curCount);
  }

  /** A printed header is `@@ -p +c @@`, with no space or `@` inside either word. */
  lemma HeaderLayout(prevStart: nat, prevCount: nat, curStart: nat, curCount: nat)
    ensures var p, c := FormatRange(prevStart, prevCount), FormatRange(curStart, curCount);
      var a, b := "-" + p, "+" + c;
      && FormatHeader(prevStart, prevCount, curStart, curCount) == "@@" + ([' '] + (a + [' '] + b) + [' ']) + "@@"
      && |a| > 0 && |b| > 0 && !IsJsSpace(a[0]) && !IsJsSpace(b[|b| - 1])
      && ' ' !in a && ' ' !in b && '@' !in a && '@' !in b
      && Tail(a) == p && Tail(b) == c
  {
    var p, c := FormatRange(prevStart, prevCount), FormatRange(curStart, curCount);
    RangeChars(prevStart, prevCount);
    RangeChars(curStart, curCount);
    assert c[|c| - 1] == Decimal(curCount)[|Decimal(curCount)| - 1];
    var a, b := "-" + p, "+" + c;
    assert ' ' !in a && ' ' !in b && '@' !in a && '@' !in b;
    assert Tail(a) == p && Tail(b) == c;
    HeaderRegrouped(p, c);
  }

  /** `@@ -p +c @@` regrouped as the marks around a space-padded pair of words. */
  lemma HeaderRegrouped(p: string, c: string)
    ensures "@@ -" + p + " +" + c + " @@" == "@@" + ([' '] + (("-" + p) + [' '] + ("+" + c)) + [' ']) + "@@"
  {
    var lhs := "@@ -" + p + " +" + c + " @@";
    var rhs := "@@" + ([' '] + (("-" + p) + [' '] + ("+" + c)) + [' ']) + "@@";
    assert |lhs| == |rhs|;
    forall k | 0 <= k < |lhs| ensures lhs[k] == rhs[k] {
    }
  }

  /** A header whose trimmed text splits into two words reads its ranges from them, signs dropped. */
  lemma HeaderOfTwoWords(line: string, a: string, b: string)
    requires StartsWith(line, "@@") && Split(Trim(HeaderText(line)), ' ') == [a, b]
    ensures ParseHunkHeader(line) == Success((ParseHunkHeaderPart(Tail(a)), ParseHunkHeaderPart(Tail(b))))
  {
  }
}

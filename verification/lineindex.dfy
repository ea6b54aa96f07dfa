/**
 * Line records of a text and the position lookup over them: a text is cut
 * into lines at a one-character separator, each line is described by a
 * record, and a binary search finds the line holding a code-unit offset.
 */
module LineIndex {

  import opened Wrappers
  import opened JsString

  /** A line record: `raw` is the text from `start` on, `line` its 1-based number. */
  datatype Loc = Loc(start: int, end: int, line: int, raw: string)

  /*
   * The string variant
   */

  /**
   * Where a line starting at `i` stops: one past the next separator, or the
   * end of the text when no separator follows.
   */
  function LineStop(data: string, c: char, i: nat): (j: nat)
    requires i < |data|
    ensures i < j <= |data|
    ensures c !in data[i..j - 1]
    ensures data[j - 1] == c || j == |data|
  {
    match IndexOf(data, c, i)
    case Some(k) => k + 1
    case None => |data|
  }

  /**
   * The record describes one line of `data`: `raw` is `data[start..end]`
   * inclusive, no separator comes before `end`, and `end` is the separator
   * itself or the last code unit of the text.
   */
  predicate Describes(data: string, c: char, l: Loc) {
    0 <= l.start <= l.end < |data| && l.raw == data[l.start..l.end + 1]
    && c !in data[l.start..l.end] && (data[l.end] == c || l.end == |data| - 1)
  }

  /**
   * The records describe `data[i..]` line by line, numbered from `line`:
   * the first starts at `i`, each starts right after its predecessor, and
   * the last ends at the last code unit.
   */
  predicate Tiles(data: string, c: char, i: nat, line: int, r: seq<Loc>) {
    (forall k :: 0 <= k < |r| ==> Describes(data, c, r[k]) && r[k].line == line + k)
    && (|r| > 0 ==> r[0].start == i && r[|r| - 1].end == |data| - 1)
    && (forall k :: 0 < k < |r| ==> r[k].start == r[k - 1].end + 1)
  }

  /** The records the string variant yields from offset `i` on, numbered from `line`. */
  function RecordsFrom(data: string, c: char, i: nat, line: int): (r: seq<Loc>)
    requires i <= |data|
    ensures r == [] <==> i == |data|
    decreases |data| - i
  {
    if i == |data| then []
    else
      var j := LineStop(data, c, i);
      [Loc(i, j - 1, line, data[i..j])] + RecordsFrom(data, c, j, line + 1)
  }

  /** The string variant of `getLines`: the records of every line, numbered from 1. */
  function GetLines(data: string, c: char): (r: seq<Loc>)
    ensures r == [] <==> data == []
  {
    RecordsFrom(data, c, 0, 1)
  }

  /** The records of the string variant describe the text line by line. */
  lemma {:induction false} RecordsTile(data: string, c: char, i: nat, line: int)
    requires i <= |data|
    ensures Tiles(data, c, i, line, RecordsFrom(data, c, i, line))
    decreases |data| - i
  {
    hide *;
    if i < |data| {
      var j := LineStop(data, c, i);
      RecordsFromAt(data, c, i, line);
      RecordsTile(data, c, j, line + 1);
      TilesCons(data, c, line, Loc(i, j - 1, line, data[i..j]), RecordsFrom(data, c, j, line + 1));
    } else {
      RecordsFromEnd(data, c, line);
    }
  }

  /** The first record from offset `i` describes the line there; the rest follow it. */
  lemma RecordsFromAt(data: string, c: char, i: nat, line: int)
    requires i < |data|
    ensures var j := LineStop(data, c, i);
      && RecordsFrom(data, c, i, line) == [Loc(i, j - 1, line, data[i..j])] + RecordsFrom(data, c, j, line + 1)
      && Describes(data, c, Loc(i, j - 1, line, data[i..j]))
      && (j == |data| ==> RecordsFrom(data, c, j, line + 1) == [])
  {
  }

  /** No records are left at the end of the text, and no records tile the empty rest. */
  lemma RecordsFromEnd(data: string, c: char, line: int)
    ensures RecordsFrom(data, c, |data|, line) == []
    ensures Tiles(data, c, |data|, line, [])
  {
  }

  /** A record followed by records tiling the text after it tiles the text from its start. */
  lemma TilesCons(data: string, c: char, line: int, l: Loc, rest: seq<Loc>)
    requires Describes(data, c, l) && l.line == line && l.start >= 0
    requires Tiles(data, c, l.end + 1, line + 1, rest)
    requires rest == [] ==> l.end == |data| - 1
    ensures Tiles(data, c, l.start, line, [l] + rest)
  {
    var r := [l] + rest;
    forall k | 0 < k < |r| ensures r[k].start == r[k - 1].end + 1 {
      assert r[k] == rest[k - 1];
    }
  }

  /** The records of a text describe it line by line, numbered from 1. */
  lemma GetLinesTile(data: string, c: char)
    ensures Tiles(data, c, 0, 1, GetLines(data, c))
  {
    RecordsTile(data, c, 0, 1);
  }

  /** The `raw` fields of the records, in order. */
  function Raws(r: seq<Loc>): (raws: seq<string>)
    ensures |raws| == |r|
    ensures forall k :: 0 <= k < |r| ==> raws[k] == r[k].raw
  {
    if |r| == 0 then [] else [r[0].raw] + Raws(r[1..])
  }

  /** Concatenating the `raw` fields of the string variant gives the text back. */
  lemma {:induction false} RecordsConcat(data: string, c: char, i: nat, line: int)
    requires i <= |data|
    ensures Flatten(Raws(RecordsFrom(data, c, i, line))) == data[i..]
    decreases |data| - i
  {
    if i < |data| {
      var j := LineStop(data, c, i);
      var r := RecordsFrom(data, c, i, line);
      RecordsConcat(data, c, j, line + 1);
      assert r[1..] == RecordsFrom(data, c, j, line + 1);
      assert Raws(r) == [data[i..j]] + Raws(r[1..]);
      assert data[i..] == data[i..j] + data[j..];
    }
  }

  /** The whole text is the concatenation of its lines. */
  lemma GetLinesConcat(data: string, c: char)
    ensures Flatten(Raws(GetLines(data, c))) == data
  {
    RecordsConcat(data, c, 0, 1);
    assert data[0..] == data;
  }

  /*
   * Lookup
   */

  /** The record holds the offset. */
  predicate Holds(l: Loc, span: int) {
    l.start <= span <= l.end
  }

  /** Records in ascending order of their disjoint, non-empty ranges. */
  predicate Sorted(lines: seq<Loc>) {
    (forall k :: 0 <= k < |lines| ==> lines[k].start <= lines[k].end)
    && (forall a, b :: 0 <= a < b < |lines| ==> lines[a].end < lines[b].start)
  }

  /** The lines of a text are sorted. */
  lemma TilesSorted(data: string, c: char, i: nat, line: int, r: seq<Loc>)
    requires Tiles(data, c, i, line, r)
    ensures Sorted(r)
  {
    forall a, b | 0 <= a < b < |r| ensures r[a].end < r[b].start {
      TilesAscending(data, c, i, line, r, a, b);
    }
  }

  lemma {:induction false} TilesAscending(data: string, c: char, i: nat, line: int, r: seq<Loc>, a: nat, b: nat)
    requires Tiles(data, c, i, line, r) && a < b < |r|
    ensures r[a].end < r[b].start
    decreases b - a
  {
    if a + 1 < b {
      TilesAscending(data, c, i, line, r, a + 1, b);
      assert Describes(data, c, r[a + 1]);
    }
  }

  /** A reference lookup: the line of the first record holding `span`, or -1. */
  function SpecLine(lines: seq<Loc>, span: int): (r: int)
    ensures r == -1 || exists k :: 0 <= k < |lines| && Holds(lines[k], span) && lines[k].line == r
    ensures (forall k :: 0 <= k < |lines| ==> !Holds(lines[k], span)) ==> r == -1
  {
    if |lines| == 0 then -1
    else if Holds(lines[0], span) then lines[0].line
    else
      var r := SpecLine(lines[1..], span);
      assert r != -1 ==> exists k :: 1 <= k < |lines| && Holds(lines[k], span) && lines[k].line == r by {
        if r != -1 {
          var k :| 0 <= k < |lines[1..]| && Holds(lines[1..][k], span) && lines[1..][k].line == r;
          assert lines[k + 1] == lines[1..][k];
        }
      }
      r
  }

  /** In sorted records, the reference lookup finds the one record holding `span`. */
  lemma {:induction false} SpecLineSorted(lines: seq<Loc>, span: int, k: nat)
    requires Sorted(lines) && k < |lines| && Holds(lines[k], span)
    ensures SpecLine(lines, span) == lines[k].line
  {
    if k > 0 {
      assert !Holds(lines[0], span) by {
        assert lines[0].end < lines[k].start;
      }
      assert lines[1..][k - 1] == lines[k];
      SpecLineSorted(lines[1..], span, k - 1);
    }
  }

  /**
   * `getLineBySpan`: a binary search for the record holding `span`. It
   * answers a line of a record that holds `span`, or -1; on sorted records
   * it answers exactly what the linear reference lookup does.
   */
  method GetLineBySpan(lines: seq<Loc>, span: int) returns (r: int)
    ensures r == -1 || exists k :: 0 <= k < |lines| && Holds(lines[k], span) && lines[k].line == r
    ensures Sorted(lines) ==> r == SpecLine(lines, span)
  {
    var left, right := 0, |lines| - 1;
    while left <= right
      invariant 0 <= left <= right + 1 <= |lines|
      invariant Sorted(lines) ==>
        forall k :: 0 <= k < |lines| && Holds(lines[k], span) ==> left <= k <= right
      decreases right - left
    {
      var mid := (left + right) / 2;
      var l := lines[mid];
      if span >= l.start && span <= l.end {
        if Sorted(lines) {
          SpecLineSorted(lines, span, mid);
        }
        return l.line;
      } else if span < l.start {
        right := mid - 1;
      } else {
        left := mid + 1;
      }
    }
    return -1;
  }

  /**
   * The line of an offset in the records of the string variant: 1 plus the
   * separators before it, or -1 outside the text.
   */
  lemma {:induction false} SpecLineOfRecords(data: string, c: char, i: nat, line: int, span: int)
    requires i <= |data|
    ensures SpecLine(RecordsFrom(data, c, i, line), span)
      == if i <= span < |data| then line + CountChar(data[i..span], c) else -1
    decreases |data| - i
  {
    var r := RecordsFrom(data, c, i, line);
    if i < |data| {
      var j := LineStop(data, c, i);
      var rest := RecordsFrom(data, c, j, line + 1);
      assert r == [Loc(i, j - 1, line, data[i..j])] + rest;
      assert r[1..] == rest;
      SpecLineOfRecords(data, c, j, line + 1, span);
      if i <= span < j {
        CountWithinLine(data, c, i, j, span);
      } else if j <= span < |data| {
        CountAcrossLine(data, c, i, j, span);
      }
    }
  }

  lemma CountWithinLine(data: string, c: char, i: nat, j: nat, span: int)
    requires i <= span < j <= |data| && c !in data[i..j - 1]
    ensures CountChar(data[i..span], c) == 0
  {
    assert data[i..span] == data[i..j - 1][..span - i];
    CountCharAbsent(data[i..span], c);
  }

  lemma CountAcrossLine(data: string, c: char, i: nat, j: nat, span: int)
    requires i < j <= span < |data| && c !in data[i..j - 1] && data[j - 1] == c
    ensures CountChar(data[i..span], c) == 1 + CountChar(data[j..span], c)
  {
    assert data[i..span] == data[i..j - 1] + [c] + data[j..span];
    CountCharAppend(data[i..j - 1] + [c], data[j..span], c);
    CountCharAppend(data[i..j - 1], [c], c);
    CountCharAbsent(data[i..j - 1], c);
  }

  /**
   * Looking an offset up in the lines of a text: the 1-based line number
   * of offset `span`, that is 1 plus the separators before it, or -1 when
   * `span` is outside the text.
   */
  method LineOfOffset(data: string, c: char, span: int) returns (r: int)
    ensures r == if 0 <= span < |data| then 1 + CountChar(data[..span], c) else -1
  {
    var lines := GetLines(data, c);
    GetLinesTile(data, c);
    TilesSorted(data, c, 0, 1, lines);
    SpecLineOfRecords(data, c, 0, 1, span);
    r := GetLineBySpan(lines, span);
    assert 0 <= span < |data| ==> data[0..span] == data[..span];
  }

  /*
   * The chunked variant
   */

  /**
   * The records the chunked variant yields for one chunk `s` (with any
   * carried tail already prefixed) from offset `i` on, and the tail it
   * carries to the next chunk. `end` is the separator's offset, or `|s|`
   * for the unterminated end of the final chunk; `raw` excludes the separator.
   */
  function ChunkRecords(s: string, c: char, i: nat, line: int, last: bool): (r: (seq<Loc>, Option<string>))
    requires i <= |s|
    ensures forall k :: 0 <= k < |r.0| ==>
      var l := r.0[k];
      l.line == line + k && i <= l.start <= l.end <= |s| && l.raw == s[l.start..l.end]
      && c !in l.raw && (l.end == |s| || s[l.end] == c)
    ensures r.1.Some? ==> !last && 0 < |r.1.value| && c !in r.1.value
    decreases |s| - i
  {
    if i == |s| then ([], None)
    else
      match IndexOf(s, c, i)
      case Some(j) =>
        var rest := ChunkRecords(s, c, j + 1, line + 1, last);
        ([Loc(i, j, line, s[i..j])] + rest.0, rest.1)
      case None =>
        if last then ([Loc(i, |s|, line, s[i..])], None)
        else ([], Some(s[i..]))
  }

  /** Where the records of a chunk leave off: one past the last record's end, or `i` without records. */
  function NextStart(recs: seq<Loc>, i: int): int {
    if |recs| == 0 then i else recs[|recs| - 1].end + 1
  }

  /**
   * Records `r.0` and carried tail `r.1` tile chunk `s` from `i` on: the
   * first record starts at `i`, each starts right after its predecessor's
   * separator, and together they reach the end of the final chunk; any other
   * chunk carries over exactly the unterminated rest, if it is not empty.
   */
  ghost predicate ChunkTiled(s: string, i: int, last: bool, r: (seq<Loc>, Option<string>)) {
    var e := NextStart(r.0, i);
    && (|r.0| > 0 ==> r.0[0].start == i)
    && (forall k :: 0 < k < |r.0| ==> r.0[k].start == r.0[k - 1].end + 1)
    && (last ==> |s| <= e && r.1 == None)
    && (!last ==> 0 <= e <= |s| && r.1 == (if e < |s| then Some(s[e..]) else None))
  }

  /** The records of one chunk tile it from `i` on. */
  lemma {:induction false} ChunkRecordsTile(s: string, c: char, i: nat, line: int, last: bool)
    requires i <= |s|
    ensures ChunkTiled(s, i, last, ChunkRecords(s, c, i, line, last))
    decreases |s| - i
  {
    hide *;
    if i == |s| {
      ChunkRecordsEnd(s, c, line, last);
    } else {
      ChunkRecordsAt(s, c, i, line, last);
      match IndexOf(s, c, i)
      case Some(j) =>
        ChunkRecordsTile(s, c, j + 1, line + 1, last);
        ChunkTiledCons(s, i, j, line, last, ChunkRecords(s, c, j + 1, line + 1, last));
      case None =>
        ChunkTiledTail(s, i, line, last);
    }
  }

  /** At the end of a chunk there are no records and no tail. */
  lemma ChunkRecordsEnd(s: string, c: char, line: int, last: bool)
    ensures ChunkRecords(s, c, |s|, line, last) == ([], None)
    ensures ChunkTiled(s, |s|, last, ([], None))
  {
  }

  /** One step of `ChunkRecords` from a position before the end. */
  lemma ChunkRecordsAt(s: string, c: char, i: nat, line: int, last: bool)
    requires i < |s|
    ensures ChunkRecords(s, c, i, line, last) ==
      match IndexOf(s, c, i)
      case Some(j) =>
        var rest := ChunkRecords(s, c, j + 1, line + 1, last);
        ([Loc(i, j, line, s[i..j])] + rest.0, rest.1)
      case None =>
        if last then ([Loc(i, |s|, line, s[i..])], None) else ([], Some(s[i..]))
  {
  }

  /** A record ending at a separator, followed by records tiling the rest, tiles from its start. */
  lemma ChunkTiledCons(s: string, i: nat, j: nat, line: int, last: bool, rest: (seq<Loc>, Option<string>))
    requires i <= j < |s| && ChunkTiled(s, j + 1, last, rest)
    ensures ChunkTiled(s, i, last, ([Loc(i, j, line, s[i..j])] + rest.0, rest.1))
  {
    var r := [Loc(i, j, line, s[i..j])] + rest.0;
    forall k | 0 < k < |r| ensures r[k].start == r[k - 1].end + 1 {
      assert r[k] == rest.0[k - 1];
      if k > 1 {
        assert r[k - 1] == rest.0[k - 2];
      }
    }
    assert NextStart(r, i) == NextStart(rest.0, j + 1);
  }

  /** Without a further separator, the rest is the last record of the final chunk, or the carried tail. */
  lemma ChunkTiledTail(s: string, i: nat, line: int, last: bool)
    requires i < |s|
    ensures ChunkTiled(s, i, last, if last then ([Loc(i, |s|, line, s[i..])], None) else ([], Some(s[i..])))
  {
  }

  /** The tail carried over from the previous chunk, if any, as a prefix. */
  function Carried(leftover: Option<string>): string {
    match leftover
    case Some(t) => t
    case None => []
  }

  /**
   * The records the chunked variant yields from chunk `idx` on, carrying
   * `leftover` from the chunk before. Offsets and numbers restart with
   * every chunk.
   */
  function ChunksFrom(data: seq<string>, c: char, idx: nat, leftover: Option<string>): (r: seq<Loc>)
    requires idx <= |data|
    ensures forall k :: 0 <= k < |r| ==> c !in r[k].raw
    decreases |data| - idx
  {
    if idx == |data| then []
    else
      var s := Carried(leftover) + data[idx];
      var recs := ChunkRecords(s, c, 0, 1, idx + 1 == |data|);
      recs.0 + ChunksFrom(data, c, idx + 1, recs.1)
  }

  /** The chunked variant of `getLines`. */
  function GetChunkLines(data: seq<string>, c: char): (r: seq<Loc>)
    ensures forall k :: 0 <= k < |r| ==> c !in r[k].raw
  {
    ChunksFrom(data, c, 0, None)
  }

  /**
   * Offsets and line numbers restart with every chunk: the records of chunk
   * `idx` come first, numbered from line 1 at offset 0 of the chunk with the
   * carried tail in front.
   */
  lemma ChunkLinesRestart(data: seq<string>, c: char, idx: nat, leftover: Option<string>)
    requires idx < |data|
    ensures var s := Carried(leftover) + data[idx];
      var recs := ChunkRecords(s, c, 0, 1, idx + 1 == |data|).0;
      var r := ChunksFrom(data, c, idx, leftover);
      && |recs| <= |r| && r[..|recs|] == recs
      && (|recs| > 0 ==> r[0].start == 0 && r[0].line == 1)
  {
    var s := Carried(leftover) + data[idx];
    var recs := ChunkRecords(s, c, 0, 1, idx + 1 == |data|);
    ChunkRecordsTile(s, c, 0, 1, idx + 1 == |data|);
    assert ChunksFrom(data, c, idx, leftover) == recs.0 + ChunksFrom(data, c, idx + 1, recs.1);
  }

  /** Two chunks: the second one's line is line 1 at offset 0 again. */
  lemma ChunkLinesExample()
    ensures GetChunkLines(["a\nb\n", "c"], '\n') ==
      [Loc(0, 1, 1, "a"), Loc(2, 3, 2, "b"), Loc(0, 1, 1, "c")]
  {
    FirstChunkExample();
    LastChunkExample();
    assert Carried(None) + "a\nb\n" == "a\nb\n" && Carried(None) + "c" == "c";
    assert ChunksFrom(["a\nb\n", "c"], '\n', 1, None) == [Loc(0, 1, 1, "c")];
  }

  lemma FirstChunkExample()
    ensures ChunkRecords("a\nb\n", '\n', 0, 1, false) == ([Loc(0, 1, 1, "a"), Loc(2, 3, 2, "b")], None)
  {
    var s0 := "a\nb\n";
    assert |s0| == 4 && s0[0..1] == "a" && s0[2..3] == "b";
    assert IndexOf(s0, '\n', 0) == Some(1);
    assert IndexOf(s0, '\n', 2) == Some(3);
    ChunkRecordsEnd(s0, '\n', 3, false);
    ChunkRecordsAt(s0, '\n', 2, 2, false);
    ChunkRecordsAt(s0, '\n', 0, 1, false);
    assert [Loc(2, 3, 2, s0[2..3])] + [] == [Loc(2, 3, 2, "b")];
    assert [Loc(0, 1, 1, "a")] + [Loc(2, 3, 2, "b")] == [Loc(0, 1, 1, "a"), Loc(2, 3, 2, "b")];
  }

  lemma LastChunkExample()
    ensures ChunkRecords("c", '\n', 0, 1, true) == ([Loc(0, 1, 1, "c")], None)
  {
    assert IndexOf("c", '\n', 0) == None;
    assert "c"[0..] == "c";
  }
}

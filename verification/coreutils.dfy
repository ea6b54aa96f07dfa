/**
 * The core utilities: a line iterator that yields the raw pieces of a text
 * (or of a text delivered in chunks), and the removal of the query and
 * fragment from a module id.
 */
module CoreUtils {

  import opened Wrappers
  import opened JsString
  import opened LineIndex

  /*
   * The string variant
   */

  /** The pieces the string variant yields from offset `i` on: each line with its separator. */
  function PiecesFrom(data: string, c: char, i: nat): (r: seq<string>)
    requires i <= |data|
    ensures r == [] <==> i == |data|
    decreases |data| - i
  {
    if i == |data| then []
    else
      var j := LineStop(data, c, i);
      [data[i..j]] + PiecesFrom(data, c, j)
  }

  /** The string variant of `getLines`. */
  function Pieces(data: string, c: char): (r: seq<string>)
    ensures r == [] <==> data == []
  {
    PiecesFrom(data, c, 0)
  }

  /** The pieces are exactly the `raw` fields of the line records of the same text. */
  lemma {:induction false} PiecesAreRaws(data: string, c: char, i: nat, line: int)
    requires i <= |data|
    ensures PiecesFrom(data, c, i) == Raws(RecordsFrom(data, c, i, line))
    decreases |data| - i
  {
    if i < |data| {
      var j := LineStop(data, c, i);
      var r := RecordsFrom(data, c, i, line);
      assert r == [Loc(i, j - 1, line, data[i..j])] + RecordsFrom(data, c, j, line + 1);
      assert r[1..] == RecordsFrom(data, c, j, line + 1);
      PiecesAreRaws(data, c, j, line + 1);
    }
  }

  /** Concatenating the pieces gives the text back. */
  lemma PiecesConcat(data: string, c: char)
    ensures Flatten(Pieces(data, c)) == data
  {
    PiecesAreRaws(data, c, 0, 1);
    GetLinesConcat(data, c);
  }

  /**
   * Every piece is non-empty and holds the separator at most as its last
   * code unit; every piece but the last ends with the separator.
   */
  lemma PiecesShape(data: string, c: char)
    ensures var r := Pieces(data, c);
      (forall k :: 0 <= k < |r| ==> |r[k]| > 0 && c !in r[k][..|r[k]| - 1])
      && (forall k :: 0 <= k < |r| - 1 ==> r[k][|r[k]| - 1] == c)
  {
    hide *;
    PiecesAreLineRaws(data, c);
    GetLinesTile(data, c);
    TiledRawsShape(data, c, GetLines(data, c));
  }

  /** The string variant yields the `raw` fields of `getLines`. */
  lemma PiecesAreLineRaws(data: string, c: char)
    ensures Pieces(data, c) == Raws(GetLines(data, c))
  {
    PiecesAreRaws(data, c, 0, 1);
  }

  /** The `raw` fields of records that tile a text have the shape of pieces. */
  lemma TiledRawsShape(data: string, c: char, recs: seq<Loc>)
    requires Tiles(data, c, 0, 1, recs)
    ensures var r := Raws(recs);
      (forall k :: 0 <= k < |r| ==> |r[k]| > 0 && c !in r[k][..|r[k]| - 1])
      && (forall k :: 0 <= k < |r| - 1 ==> r[k][|r[k]| - 1] == c)
  {
    var r := Raws(recs);
    forall k | 0 <= k < |r| ensures |r[k]| > 0 && c !in r[k][..|r[k]| - 1] {
      PieceOfRecord(data, c, recs[k]);
    }
    forall k | 0 <= k < |r| - 1 ensures r[k][|r[k]| - 1] == c {
      PieceBeforeAnother(data, c, recs[k], recs[k + 1]);
    }
  }

  lemma PieceOfRecord(data: string, c: char, l: Loc)
    requires Describes(data, c, l)
    ensures |l.raw| > 0 && c !in l.raw[..|l.raw| - 1]
  {
    assert l.raw[..|l.raw| - 1] == data[l.start..l.end];
  }

  lemma PieceBeforeAnother(data: string, c: char, l: Loc, next: Loc)
    requires Describes(data, c, l) && Describes(data, c, next) && next.start == l.end + 1
    ensures l.raw[|l.raw| - 1] == c
  {
  }

  /*
   * The chunked variant
   */

  /**
   * The pieces the chunked variant yields for one chunk `s` (with any
   * carried tail already prefixed) from offset `i` on, without separators,
   * and the unterminated tail it carries over when `s` is not the final chunk.
   */
  function ScanPieces(s: string, c: char, i: nat, last: bool): (r: (seq<string>, Option<string>))
    requires i <= |s|
    ensures forall k :: 0 <= k < |r.0| ==> c !in r.0[k]
    ensures r.1.Some? ==> !last && 0 < |r.1.value| && c !in r.1.value
    decreases |s| - i
  {
    if i == |s| then ([], None)
    else
      match IndexOf(s, c, i)
      case Some(j) =>
        var rest := ScanPieces(s, c, j + 1, last);
        ([s[i..j]] + rest.0, rest.1)
      case None =>
        if last then ([s[i..]], None)
        else ([], Some(s[i..]))
  }

  /** The pieces the chunked variant yields from chunk `idx` on, carrying `leftover`. */
  function ChunkPiecesFrom(data: seq<string>, c: char, idx: nat, leftover: Option<string>): (r: seq<string>)
    requires idx <= |data|
    ensures forall k :: 0 <= k < |r| ==> c !in r[k]
    decreases |data| - idx
  {
    if idx == |data| then []
    else
      var scan := ScanPieces(Carried(leftover) + data[idx], c, 0, idx + 1 == |data|);
      scan.0 + ChunkPiecesFrom(data, c, idx + 1, scan.1)
  }

  /** The chunked variant of `getLines`. */
  function ChunkPieces(data: seq<string>, c: char): (r: seq<string>)
    ensures forall k :: 0 <= k < |r| ==> c !in r[k]
  {
    ChunkPiecesFrom(data, c, 0, None)
  }

  /** The fields of a split without a final empty field. */
  function DropTrailingEmpty(fields: seq<string>): seq<string> {
    if |fields| > 0 && fields[|fields| - 1] == [] then fields[..|fields| - 1] else fields
  }

  lemma DropTrailingEmptyAppend(a: seq<string>, b: seq<string>)
    requires |b| > 0
    ensures DropTrailingEmpty(a + b) == a + DropTrailingEmpty(b)
  {
    if b[|b| - 1] == [] {
      assert (a + b)[..|a + b| - 1] == a + b[..|b| - 1];
    }
  }

  /**
   * `scan` holds the separator-split fields of `t` but the last; the last
   * field is among them too in the final chunk, and carried over otherwise,
   * unless it is empty.
   */
  ghost predicate ScansAsSplit(t: string, c: char, last: bool, scan: (seq<string>, Option<string>)) {
    var f := Split(t, c);
    && scan.0 == (if last then DropTrailingEmpty(f) else f[..|f| - 1])
    && scan.1 == (if last || f[|f| - 1] == [] then None else Some(f[|f| - 1]))
  }

  /** Scanning one chunk from `i` yields the split fields of `s[i..]` as `ScansAsSplit` describes. */
  lemma {:induction false} ScanSplit(s: string, c: char, i: nat, last: bool)
    requires i <= |s|
    ensures ScansAsSplit(s[i..], c, last, ScanPieces(s, c, i, last))
    decreases |s| - i
  {
    hide *;
    if i == |s| {
      ScanSplitEnd(s, c, last);
    } else {
      ScanPiecesAt(s, c, i, last);
      match IndexOf(s, c, i)
      case Some(j) =>
        ScanSplit(s, c, j + 1, last);
        ScanSplitField(s, c, i, j, last, ScanPieces(s, c, j + 1, last));
      case None =>
        ScanSplitTail(s, c, i, last);
    }
  }

  /** At the end of the chunk nothing is yielded and nothing is carried. */
  lemma ScanSplitEnd(s: string, c: char, last: bool)
    ensures ScanPieces(s, c, |s|, last) == ([], None)
    ensures ScansAsSplit(s[|s|..], c, last, ([], None))
  {
    assert s[|s|..] == [];
  }

  /** One step of `ScanPieces` from a position before the end. */
  lemma ScanPiecesAt(s: string, c: char, i: nat, last: bool)
    requires i < |s|
    ensures ScanPieces(s, c, i, last) ==
      match IndexOf(s, c, i)
      case Some(j) => var rest := ScanPieces(s, c, j + 1, last); ([s[i..j]] + rest.0, rest.1)
      case None => if last then ([s[i..]], None) else ([], Some(s[i..]))
  {
  }

  /** A separator at `j` adds the field `s[i..j]` in front of what the scan from `j + 1` yields. */
  lemma ScanSplitField(s: string, c: char, i: nat, j: nat, last: bool, rest: (seq<string>, Option<string>))
    requires i <= j < |s| && s[j] == c && c !in s[i..j]
    requires ScansAsSplit(s[j + 1..], c, last, rest)
    ensures ScansAsSplit(s[i..], c, last, ([s[i..j]] + rest.0, rest.1))
  {
    assert s[i..] == s[i..j] + [c] + s[j + 1..];
    SplitAtFirst(s[i..j], s[j + 1..], c);
    var g := Split(s[j + 1..], c);
    assert Split(s[i..], c) == [s[i..j]] + g;
    if last {
      DropTrailingEmptyAppend([s[i..j]], g);
    } else {
      assert ([s[i..j]] + g)[..|g|] == [s[i..j]] + g[..|g| - 1];
    }
  }

  /** Without a further separator, the rest of the chunk is the last field. */
  lemma ScanSplitTail(s: string, c: char, i: nat, last: bool)
    requires i < |s| && c !in s[i..]
    ensures ScansAsSplit(s[i..], c, last, if last then ([s[i..]], None) else ([], Some(s[i..])))
  {
    SplitNoSeparator(s[i..], c);
  }

  /**
   * From chunk `idx` on, the pieces are the split fields of the carried
   * tail followed by the remaining chunks, without a final empty field.
   */
  lemma {:induction false} ChunkSplit(data: seq<string>, c: char, idx: nat, leftover: Option<string>)
    requires idx <= |data| && (leftover.Some? ==> idx < |data|)
    ensures ChunkPiecesFrom(data, c, idx, leftover)
      == DropTrailingEmpty(Split(Carried(leftover) + Flatten(data[idx..]), c))
    decreases |data| - idx
  {
    if idx == |data| {
      assert Carried(leftover) + Flatten(data[idx..]) == [];
    } else {
      var s := Carried(leftover) + data[idx];
      var t := Flatten(data[idx + 1..]);
      assert data[idx..][1..] == data[idx + 1..];
      assert Carried(leftover) + Flatten(data[idx..]) == s + t;
      var last := idx + 1 == |data|;
      var scan := ScanPieces(s, c, 0, last);
      ScanSplit(s, c, 0, last);
      assert s[0..] == s;
      var f := Split(s, c);
      if last {
        assert t == [] && s + t == s;
      } else {
        ChunkSplit(data, c, idx + 1, scan.1);
        assert Carried(scan.1) == f[|f| - 1];
        SplitAppend(s, t, c);
        DropTrailingEmptyAppend(f[..|f| - 1], Split(f[|f| - 1] + t, c));
      }
    }
  }

  /**
   * The chunked variant yields the separator-split fields of the
   * concatenated chunks, without a final empty field: where the chunk
   * boundaries fall makes no difference.
   */
  lemma ChunkPiecesSplit(data: seq<string>, c: char)
    ensures ChunkPieces(data, c) == DropTrailingEmpty(Split(Flatten(data), c))
  {
    ChunkSplit(data, c, 0, None);
    assert data[0..] == data;
    assert Carried(None) + Flatten(data) == Flatten(data);
  }

  /** For a single chunk, the pieces are its split fields without a final empty field. */
  lemma SingleChunkPieces(s: string, c: char)
    ensures ChunkPieces([s], c) == DropTrailingEmpty(Split(s, c))
  {
    ChunkPiecesSplit([s], c);
    assert [s][1..] == [];
    assert Flatten([s]) == s + Flatten([]);
    assert s + [] == s;
  }

  /** An unterminated tail of a chunk is joined to the start of the next one. */
  lemma CarriedTailExample()
    ensures ChunkPieces(["ab", "c\nd"], '\n') == ["abc", "d"]
  {
    ChunkPiecesSplit(["ab", "c\nd"], '\n');
    assert Flatten(["ab", "c\nd"]) == "abc" + ['\n'] + "d";
    SplitTwo("abc", "d", '\n');
  }

  /** The records of the chunked line index carry exactly the pieces of the chunked iterator. */
  lemma {:induction false} ChunkRecordsArePieces(s: string, c: char, i: nat, line: int, last: bool)
    requires i <= |s|
    ensures Raws(ChunkRecords(s, c, i, line, last).0) == ScanPieces(s, c, i, last).0
    ensures ChunkRecords(s, c, i, line, last).1 == ScanPieces(s, c, i, last).1
    decreases |s| - i
  {
    if i < |s| {
      match IndexOf(s, c, i)
      case Some(j) =>
        ChunkRecordsArePieces(s, c, j + 1, line + 1, last);
        var recs := ChunkRecords(s, c, i, line, last).0;
        assert recs[1..] == ChunkRecords(s, c, j + 1, line + 1, last).0;
      case None =>
    }
  }

  lemma {:induction false} ChunksArePieces(data: seq<string>, c: char, idx: nat, leftover: Option<string>)
    requires idx <= |data|
    ensures Raws(ChunksFrom(data, c, idx, leftover)) == ChunkPiecesFrom(data, c, idx, leftover)
    decreases |data| - idx
  {
    if idx < |data| {
      var s := Carried(leftover) + data[idx];
      var last := idx + 1 == |data|;
      var recs := ChunkRecords(s, c, 0, 1, last);
      ChunkRecordsArePieces(s, c, 0, 1, last);
      ChunksArePieces(data, c, idx + 1, recs.1);
      RawsAppend(recs.0, ChunksFrom(data, c, idx + 1, recs.1));
    }
  }

  lemma {:induction false} RawsAppend(a: seq<Loc>, b: seq<Loc>)
    ensures Raws(a + b) == Raws(a) + Raws(b)
  {
    if |a| > 0 {
      assert (a + b)[1..] == a[1..] + b;
      RawsAppend(a[1..], b);
    }
  }

  /**
   * The chunked line index yields the separator-split fields of the
   * concatenated chunks, without a final empty field, as its `raw` fields.
   */
  lemma ChunkLinesSplit(data: seq<string>, c: char)
    ensures Raws(GetChunkLines(data, c)) == DropTrailingEmpty(Split(Flatten(data), c))
  {
    ChunksArePieces(data, c, 0, None);
    ChunkPiecesSplit(data, c);
  }

  /*
   * Module ids
   */

  /** The code units a regular expression's `.` does not match. */
  predicate IsLineTerminator(ch: char) {
    ch == '\n' || ch == '\r' || ch == '\U{2028}' || ch == '\U{2029}'
  }

  /** `/[?#].*$/` matches from `p`: a `?` or `#` with no line terminator after it. */
  predicate MatchesAt(url: string, p: nat) {
    p < |url| && (url[p] == '?' || url[p] == '#')
    && forall k :: p < k < |url| ==> !IsLineTerminator(url[k])
  }

  /** The leftmost position from `p` on where the pattern matches. */
  function FirstMatch(url: string, p: nat): (r: Option<nat>)
    requires p <= |url|
    ensures r.Some? ==>
      p <= r.value && MatchesAt(url, r.value) && (forall q :: p <= q < r.value ==> !MatchesAt(url, q))
    ensures r.None? ==> forall q :: p <= q < |url| ==> !MatchesAt(url, q)
    decreases |url| - p
  {
    if p == |url| then None
    else if MatchesAt(url, p) then Some(p)
    else FirstMatch(url, p + 1)
  }

  /**
   * `cleanUrl`: the id cut at the leftmost `?` or `#` that has no line
   * terminator after it, or the id itself when there is none.
   */
  function CleanUrl(url: string): (r: string)
    ensures |r| <= |url| && r == url[..|r|]
    ensures |r| == |url| || MatchesAt(url, |r|)
    ensures forall q :: 0 <= q < |r| ==> !MatchesAt(url, q)
  {
    match FirstMatch(url, 0)
    case Some(p) => url[..p]
    case None => url
  }

  /**
   * Without line terminators, `cleanUrl` keeps the longest prefix that has
   * no `?` and no `#`.
   */
  lemma CleanUrlPrefix(url: string)
    requires forall k :: 0 <= k < |url| ==> !IsLineTerminator(url[k])
    ensures var r := CleanUrl(url);
      '?' !in r && '#' !in r && (|r| == |url| || url[|r|] == '?' || url[|r|] == '#')
  {
    var r := CleanUrl(url);
    forall q | 0 <= q < |r| ensures r[q] != '?' && r[q] != '#' {
      assert !MatchesAt(url, q);
    }
  }

  /** An id with no `?` and no `#` is left as it is. */
  lemma CleanUrlUnchanged(url: string)
    requires '?' !in url && '#' !in url
    ensures CleanUrl(url) == url
  {
  }

  /** Cleaning twice is cleaning once. */
  lemma CleanUrlIdempotent(url: string)
    ensures CleanUrl(CleanUrl(url)) == CleanUrl(url)
  {
    var r := CleanUrl(url);
    forall q | 0 <= q < |r| ensures !MatchesAt(r, q) {
      if r[q] == '?' || r[q] == '#' {
        assert !MatchesAt(url, q);
        var k :| q < k < |url| && IsLineTerminator(url[k]);
        if |r| < |url| {
          assert MatchesAt(url, |r|);
          assert k < |r|;
        }
        assert r[k] == url[k];
      }
    }
    var r2 := CleanUrl(r);
    assert |r2| == |r|;
  }
}

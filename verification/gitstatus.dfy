/**
 * The status of one path in `git status` short format: the two-character
 * `XY` code (X = index side, Y = work-tree side, as described in the "Short
 * Format" section of git-status(1)) and its classification into `Status`.
 */
module GitStatus {

  import opened Wrappers

  /** The classification of a path, in the declaration order of the enum. */
  datatype Status =
    | IndexModified | IndexAdded | IndexDeleted | IndexRenamed | IndexCopied
    | Modified | Deleted | Untracked | Ignored | IntentToAdd | IntentToRename | TypeChanged
    | AddedByUs | AddedByThem | DeletedByUs | DeletedByThem | BothAdded | BothDeleted | BothModified
  {
    /** A merge-conflict (unmerged) status. */
    predicate Unmerged() {
      AddedByUs? || AddedByThem? || DeletedByUs? || DeletedByThem? || BothAdded? || BothDeleted? || BothModified?
    }

    /** A status decided by the index-side letter alone. */
    predicate IsIndexSide() {
      IndexModified? || IndexAdded? || IndexDeleted? || IndexRenamed? || IndexCopied?
    }

    /** A status decided by the work-tree letter alone. */
    predicate IsWorktreeSide() {
      Modified? || Deleted? || IntentToAdd? || IntentToRename? || TypeChanged?
    }
  }

  /** The numeric value of the enum member: its position in the declaration, from 0. */
  function Ordinal(s: Status): nat {
    match s
    case IndexModified => 0
    case IndexAdded => 1
    case IndexDeleted => 2
    case IndexRenamed => 3
    case IndexCopied => 4
    case Modified => 5
    case Deleted => 6
    case Untracked => 7
    case Ignored => 8
    case IntentToAdd => 9
    case IntentToRename => 10
    case TypeChanged => 11
    case AddedByUs => 12
    case AddedByThem => 13
    case DeletedByUs => 14
    case DeletedByThem => 15
    case BothAdded => 16
    case BothDeleted => 17
    case BothModified => 18
  }

  /** JavaScript truthiness of a `Status | undefined`: `undefined` and ordinal 0 are falsy. */
  predicate Truthy(status: Option<Status>) {
    status.Some? && Ordinal(status.value) != 0
  }

  /** The combined codes that are checked before either side alone. */
  const CombinedCodes: set<string> := {"??", "!!", "DD", "AU", "UD", "UA", "DU", "AA", "UU"}

  /** The combined codes that denote a merge conflict. */
  const UnmergedCodes: set<string> := {"DD", "AU", "UD", "UA", "DU", "AA", "UU"}

  /** The index-side letters that decide the status on their own. */
  const IndexLetters: set<string> := {"M", "A", "D", "R", "C"}

  /** The work-tree letters consulted last. */
  const WorktreeLetters: set<string> := {"M", "D", "A", "R", "T"}

  function CombinedStatus(code: string): (r: Option<Status>)
    ensures r.Some? <==> code in CombinedCodes
    ensures r.Some? ==> ShortCode(r.value).0 + ShortCode(r.value).1 == code
    ensures r.Some? ==> !r.value.IsIndexSide() && !r.value.IsWorktreeSide()
    ensures (r.Some? && r.value.Unmerged()) <==> code in UnmergedCodes
  {
    if code == "??" then Some(Untracked)
    else if code == "!!" then Some(Ignored)
    else if code == "DD" then Some(BothDeleted)
    else if code == "AU" then Some(AddedByUs)
    else if code == "UD" then Some(DeletedByThem)
    else if code == "UA" then Some(AddedByThem)
    else if code == "DU" then Some(DeletedByUs)
    else if code == "AA" then Some(BothAdded)
    else if code == "UU" then Some(BothModified)
    else None
  }

  function IndexStatus(x: string): (r: Option<Status>)
    ensures r.Some? <==> x in IndexLetters
    ensures r.Some? ==> r.value.IsIndexSide() && ShortCode(r.value).0 == x
  {
    if x == "M" then Some(IndexModified)
    else if x == "A" then Some(IndexAdded)
    else if x == "D" then Some(IndexDeleted)
    else if x == "R" then Some(IndexRenamed)
    else if x == "C" then Some(IndexCopied)
    else None
  }

  function WorktreeStatus(y: string): (r: Option<Status>)
    ensures r.Some? <==> y in WorktreeLetters
    ensures r.Some? ==> r.value.IsWorktreeSide() && ShortCode(r.value).1 == y
  {
    if y == "M" then Some(Modified)
    else if y == "D" then Some(Deleted)
    else if y == "A" then Some(IntentToAdd)
    else if y == "R" then Some(IntentToRename)
    else if y == "T" then Some(TypeChanged)
    else None
  }

  /**
   * `parseStatus({x, y})`: the combined code first, then the index side
   * alone, then the work-tree side alone; anything else is unclassified.
   * Total: no code is an error.
   */
  function ParseStatus(x: string, y: string): (r: Option<Status>)
    ensures (r.Some? && r.value.Unmerged()) <==> x + y in UnmergedCodes
    ensures x + y in CombinedCodes ==> r.Some? && !r.value.IsIndexSide() && !r.value.IsWorktreeSide()
    ensures x + y !in CombinedCodes && x in IndexLetters ==> r.Some? && r.value.IsIndexSide()
    ensures r.None? <==> x + y !in CombinedCodes && x !in IndexLetters && y !in WorktreeLetters
    ensures x + y in CombinedCodes ==> r.Some? && ShortCode(r.value).0 + ShortCode(r.value).1 == x + y
    ensures x + y !in CombinedCodes && x in IndexLetters ==> r.Some? && ShortCode(r.value).0 == x
    ensures x + y !in CombinedCodes && x !in IndexLetters && y in WorktreeLetters ==>
      r.Some? && r.value.IsWorktreeSide() && ShortCode(r.value).1 == y
  {
    var combined := CombinedStatus(x + y);
    if combined.Some? then combined
    else
      var index := IndexStatus(x);
      if index.Some? then index else WorktreeStatus(y)
  }

  /** `{x: text.charAt(0), y: text.charAt(1)}`: `charAt` past the end is the empty string. */
  function StatusCode(text: string): (code: (string, string))
    ensures |code.0| <= 1 && |code.1| <= 1
    ensures |code.0| == (if |text| > 0 then 1 else 0)
    ensures code.0 + code.1 == text[..if |text| < 2 then |text| else 2]
  {
    (if |text| > 0 then [text[0]] else [], if |text| > 1 then [text[1]] else [])
  }

  /** The status of a path read from the output of `git status -z -uall <path>`. */
  function StatusOfOutput(text: string): Option<Status> {
    var code := StatusCode(text);
    ParseStatus(code.0, code.1)
  }

  /** The canonical short-format code of each status, as `git status` prints it. */
  function ShortCode(s: Status): (code: (string, string))
    ensures |code.0| == 1 && |code.1| == 1
  {
    match s
    case IndexModified => ("M", " ")
    case IndexAdded => ("A", " ")
    case IndexDeleted => ("D", " ")
    case IndexRenamed => ("R", " ")
    case IndexCopied => ("C", " ")
    case Modified => (" ", "M")
    case Deleted => (" ", "D")
    case Untracked => ("?", "?")
    case Ignored => ("!", "!")
    case IntentToAdd => (" ", "A")
    case IntentToRename => (" ", "R")
    case TypeChanged => (" ", "T")
    case AddedByUs => ("A", "U")
    case AddedByThem => ("U", "A")
    case DeletedByUs => ("D", "U")
    case DeletedByThem => ("U", "D")
    case BothAdded => ("A", "A")
    case BothDeleted => ("D", "D")
    case BothModified => ("U", "U")
  }

  /** Every status is recovered from the code `git status` prints for it. */
  lemma ParseShortCode(s: Status)
    ensures ParseStatus(ShortCode(s).0, ShortCode(s).1) == Some(s)
  {
    var code := ShortCode(s);
    assert code.0 + code.1 == [code.0[0], code.1[0]];
  }

  /** Combined codes win: `UU` and `AA` are conflicts even though `A` alone is an index letter. */
  lemma CombinedCodesWin()
    ensures ParseStatus("U", "U") == Some(BothModified)
    ensures ParseStatus("A", "A") == Some(BothAdded)
    ensures ParseStatus("D", "D") == Some(BothDeleted)
    ensures ParseStatus("M", "M") == Some(IndexModified)
    ensures ParseStatus("", "") == None
  {
    assert "U" + "U" == "UU" && "A" + "A" == "AA" && "D" + "D" == "DD" && "M" + "M" == "MM";
    assert "" + "" == "";
  }

  /**
   * For single-letter codes, the statuses that matter to the transform gate
   * arise from exactly these codes.
   */
  lemma GateStatusCodes(x: string, y: string)
    requires |x| == 1 && |y| == 1
    ensures ParseStatus(x, y) == Some(IndexModified) <==> x == "M"
    ensures ParseStatus(x, y) == Some(BothModified) <==> x == "U" && y == "U"
    ensures ParseStatus(x, y) == Some(Modified) <==> y == "M" && x !in IndexLetters
  {
    assert x + y == [x[0], y[0]];
  }

  /**
   * The output `git status -z` prints for a path is its `XY` code, a space,
   * the path and a NUL; whatever follows the code, it reads back as the
   * status the code was printed for.
   */
  lemma StatusOfPrintedCode(s: Status, rest: string)
    ensures StatusOfOutput(ShortCode(s).0 + ShortCode(s).1 + rest) == Some(s)
  {
    var code := ShortCode(s);
    var text := code.0 + code.1 + rest;
    assert StatusCode(text) == code;
    ParseShortCode(s);
  }

  /** Empty status output (a clean, committed file) is unclassified. */
  lemma EmptyOutputUnclassified()
    ensures StatusOfOutput("") == None
  {
  }

  /** Only `IndexModified`, the enum's zero, is a falsy status. */
  lemma TruthyStatus(s: Status)
    ensures Truthy(Some(s)) <==> s != IndexModified
    ensures !Truthy(None)
  {
  }
}

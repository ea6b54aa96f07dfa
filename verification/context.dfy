/**
 * The removal decision of the plugin: given whether the file lies in a git
 * work tree, its status, its diff hunks and the call expressions of its
 * source, decide which console calls to delete and produce the output text.
 */
module Context {

  import opened Wrappers
  import opened JsString
  import opened JsNumber
  import opened GitStatus
  import opened GitDiff
  import opened Removal

  /** The `reference` option: `'*'` or a list of object names. */
  datatype Reference = Wildcard | Names(names: seq<string>)

  /** The options the removal decision reads; an absent option is `None`. */
  datatype Options = Options(strict: bool, consoleType: Option<seq<string>>, reference: Option<Reference>)

  /** The options with their defaults filled in, and whether any object counts as a console. */
  datatype Ctx = Ctx(strict: bool, consoleType: seq<string>, reference: Reference, anyConsole: bool)

  /**
   * `createContext`: `type` defaults to `log` and `reference` to `console`;
   * any object counts as a console when `reference` is `'*'` or empty.
   */
  function CreateContext(opts: Options): (ctx: Ctx)
    ensures ctx.strict == opts.strict
    ensures ctx.consoleType == if opts.consoleType.Some? then opts.consoleType.value else ["log"]
    ensures ctx.reference == if opts.reference.Some? then opts.reference.value else Names(["console"])
    ensures ctx.anyConsole <==> opts.reference == Some(Wildcard) || opts.reference == Some(Names([]))
  {
    var consoleType := if opts.consoleType.Some? then opts.consoleType.value else ["log"];
    var reference := if opts.reference.Some? then opts.reference.value else Names(["console"]);
    Ctx(opts.strict, consoleType, reference, reference == Wildcard || reference == Names([]))
  }

  /** The shape of a call's callee: a plain name, `object.property`, or anything else. */
  datatype Callee =
    | Identifier(name: string)
      /**
       * Each name is the `name` field of the parser's node, and `None` when
       * the node has none (a literal such as `console['log']`, a call, a
       * nested member access).
       */
    | Member(obj: Option<string>, property: Option<string>)
    | OtherCallee

  /** Whether the call is a console call to remove. */
  predicate IsConsoleCall(ctx: Ctx, callee: Callee) {
    match callee
    case Identifier(name) => ctx.anyConsole && name in ctx.consoleType
    case Member(obj, property) =>
      (ctx.anyConsole || (ctx.reference.Names? && obj.Some? && obj.value in ctx.reference.names))
      && property.Some? && property.value in ctx.consoleType
    case OtherCallee => false
  }

  /**
   * A call expression of the source: its callee, its 1-based first and last
   * lines, and its code-unit range; the parser may omit either position.
   */
  datatype Site = Site(callee: Callee, lines: Option<(int, int)>, range: Option<Range>)

  /** The line numbers of all the hunks' line maps. */
  function HunkKeys(hunks: seq<Hunk>): (keys: set<JsNum>)
    ensures forall x :: x in keys <==> exists k :: 0 <= k < |hunks| && x in hunks[k].lines
  {
    if |hunks| == 0 then {}
    else
      var rest := HunkKeys(hunks[1..]);
      assert forall x :: x in rest <==> exists k :: 1 <= k < |hunks| && x in hunks[k].lines by {
        forall x | x in rest ensures exists k :: 1 <= k < |hunks| && x in hunks[k].lines {
          var k :| 0 <= k < |hunks[1..]| && x in hunks[1..][k].lines;
          assert hunks[k + 1] == hunks[1..][k];
        }
        forall x, k | 1 <= k < |hunks| && x in hunks[k].lines ensures x in rest {
          assert hunks[1..][k - 1] == hunks[k];
        }
      }
      hunks[0].lines.Keys + rest
  }

  /** `diffLines`: the changed lines, read from the diff only when the status is truthy. */
  function DiffLines(status: Option<Status>, hunks: seq<Hunk>): (d: set<JsNum>)
    ensures forall x :: x in d <==> Truthy(status) && exists k :: 0 <= k < |hunks| && x in hunks[k].lines
  {
    if Truthy(status) then HunkKeys(hunks) else {}
  }

  /**
   * The call spans a changed line, so it is kept. The `diffLines.length`
   * guard of the source adds nothing: a changed line in the span already
   * makes the list non-empty.
   */
  predicate Blocked(diffLines: set<JsNum>, startLine: int, endLine: int): (blocked: bool)
    ensures blocked <==> exists i :: startLine <= i <= endLine && Num(i) in diffLines
    ensures diffLines == {} || startLine > endLine ==> !blocked
  {
    diffLines != {} && exists i :: startLine <= i <= endLine && Num(i) in diffLines
  }

  /** The call has both positions, touches no changed line and is a console call. */
  predicate Removes(ctx: Ctx, diffLines: set<JsNum>, site: Site) {
    site.lines.Some? && site.range.Some?
    && !Blocked(diffLines, site.lines.value.0, site.lines.value.1)
    && IsConsoleCall(ctx, site.callee)
  }

  /** The ranges of the calls to remove, in the order of the calls. */
  function RemovedRanges(ctx: Ctx, diffLines: set<JsNum>, sites: seq<Site>): (rs: seq<Range>)
    ensures forall r :: r in rs <==>
      exists k :: 0 <= k < |sites| && Removes(ctx, diffLines, sites[k]) && sites[k].range.value == r
  {
    if |sites| == 0 then []
    else
      var rest := RemovedRanges(ctx, diffLines, sites[1..]);
      assert forall r :: r in rest <==>
        exists k :: 1 <= k < |sites| && Removes(ctx, diffLines, sites[k]) && sites[k].range.value == r
      by {
        forall r | r in rest
          ensures exists k :: 1 <= k < |sites| && Removes(ctx, diffLines, sites[k]) && sites[k].range.value == r
        {
          var k :| 0 <= k < |sites[1..]| && Removes(ctx, diffLines, sites[1..][k]) && sites[1..][k].range.value == r;
          assert sites[k + 1] == sites[1..][k];
        }
        forall k | 1 <= k < |sites| && Removes(ctx, diffLines, sites[k])
          ensures sites[k].range.value in rest
        {
          assert sites[1..][k - 1] == sites[k];
        }
      }
      (if Removes(ctx, diffLines, sites[0]) then [sites[0].range.value] else []) + rest
  }

  /** The statuses strict mode still cleans. */
  const StrictStatuses: seq<Status> := [BothModified, IndexModified, Modified]

  /** The status gate lets the file through to the removal. */
  predicate PassesGate(strict: bool, status: Option<Status>): (passes: bool)
    ensures strict ==> (passes <==> status.None? || status.value in StrictStatuses)
    ensures !strict ==> (passes <==> status.None? || status.value == IndexModified)
  {
    !(Truthy(status) && (!strict || status.value !in StrictStatuses))
  }

  /**
   * `transform`: outside a work tree, or for a file the status gate stops,
   * the code is returned as it is; otherwise every console call that has
   * both positions and touches no changed line is cut out.
   */
  function Transform(opts: Options, isRepo: bool, status: Option<Status>, hunks: seq<Hunk>,
                     code: string, sites: seq<Site>): (out: string)
    ensures !isRepo || !PassesGate(opts.strict, status) ==> out == code
    ensures |out| <= |code|
  {
    if !isRepo then code
    else
      var ctx := CreateContext(opts);
      if !PassesGate(ctx.strict, status) then code
      else Cut(code, RemovedRanges(ctx, DiffLines(status, hunks), sites))
  }

  /**
   * The answer of `git rev-parse --is-inside-work-tree`, read as the source
   * reads it: the word `true` with nothing but white space around it.
   */
  function IsRepoOutput(text: string): (isRepo: bool)
    ensures isRepo <==> exists a :: TrimmedAt(text, "true", a)
    ensures isRepo ==> |text| >= 4
  {
    RepoOutputIff(text);
    Trim(text) == "true"
  }

  lemma RepoOutputIff(text: string)
    ensures Trim(text) == "true" <==> exists a :: TrimmedAt(text, "true", a)
  {
    if exists a :: TrimmedAt(text, "true", a) {
      var a: nat :| TrimmedAt(text, "true", a);
      TrimOfTrimmed(text, "true", a);
    }
  }

  /**
   * What a git command gives back: the text it printed, or a failure (git
   * not found, or a non-zero exit), which rejects the source's promise.
   */
  datatype GitAnswer = Printed(text: string) | CommandFailed

  /**
   * What the parser gives back for the code: the call expressions of a
   * successful parse, or a failure (a syntax error, or a parser package
   * that cannot be loaded), which rejects the source's promise.
   */
  datatype ParseAnswer = Parsed(sites: seq<Site>) | ParseFailed

  /**
   * Why the whole transform rejects: a git command failed, a diff header
   * has no current range, or the code could not be parsed.
   */
  datatype TransformError = GitFailure | DiffFailure(error: DiffError) | ParseFailure

  /** The transform of a file past the gate once its hunks are known: the parse is awaited last. */
  function CleanParsed(opts: Options, status: Option<Status>, hunks: seq<Hunk>, code: string,
                       parsed: ParseAnswer): (r: Result<string, TransformError>)
    ensures r.Failure? <==> parsed.ParseFailed?
    ensures r.Failure? ==> r.error == ParseFailure
    ensures r.Success? ==> r.value == Transform(opts, true, status, hunks, code, parsed.sites)
  {
    match parsed
    case ParseFailed => Failure(ParseFailure)
    case Parsed(sites) => Success(Transform(opts, true, status, hunks, code, sites))
  }

  /**
   * The whole transform from the answers of git's three commands and of
   * the parser: the repository check, the status, for a truthy status only
   * the diff, and then the parse of a file past the gate. Any command that
   * is run and fails rejects the transform, as does a diff header without a
   * current range or a parse that fails.
   */
  function TransformFile(opts: Options, repo: GitAnswer, status: GitAnswer, diff: GitAnswer,
                         code: string, parsed: ParseAnswer): (r: Result<string, TransformError>)
    ensures repo.CommandFailed? ==> r == Failure(GitFailure)
    ensures repo.Printed? && !IsRepoOutput(repo.text) ==> r == Success(code)
    ensures r.Success? ==> |r.value| <= |code|
  {
    if repo.CommandFailed? then Failure(GitFailure)
    else if !IsRepoOutput(repo.text) then Success(code)
    else if status.CommandFailed? then Failure(GitFailure)
    else
      var st := StatusOfOutput(status.text);
      if !PassesGate(opts.strict, st) then Success(code)
      else if !Truthy(st) then CleanParsed(opts, st, [], code, parsed)
      else if diff.CommandFailed? then Failure(GitFailure)
      else
        match ParseDiff(diff.text)
        case Failure(e) => Failure(DiffFailure(e))
        case Success(hunks) => CleanParsed(opts, st, hunks, code, parsed)
  }
}

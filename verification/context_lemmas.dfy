/** Properties of the removal decision: the gate, the skip rule, the classifier and the output. */
module ContextLemmas {

  import opened Wrappers
  import opened JsString
  import opened JsNumber
  import opened GitStatus
  import opened GitDiff
  import opened Removal
  import opened Context

  /*
   * The gate
   */

  /**
   * The gate lets a file through when it has no status or is
   * `IndexModified` (the falsy zero of the enum), whatever `strict` says;
   * in strict mode also when it is `BothModified` or `Modified`.
   */
  lemma GateIff(strict: bool, status: Option<Status>)
    ensures PassesGate(strict, status) <==>
      status.None? || status.value == IndexModified
      || (strict && (status.value == BothModified || status.value == Modified))
  {
    if status.Some? {
      TruthyStatus(status.value);
    }
  }

  /** Without strict mode, only a file with no status or with `IndexModified` is cleaned. */
  lemma LenientGate(status: Option<Status>)
    ensures PassesGate(false, status) <==> !Truthy(status)
  {
  }

  /*
   * The classifier
   */

  /**
   * With the default options, exactly `console.log(...)` is a console call:
   * no bare `log(...)`, no other object, no other method.
   */
  lemma DefaultClassifier(callee: Callee)
    ensures IsConsoleCall(CreateContext(Options(false, None, None)), callee)
      <==> callee == Member(Some("console"), Some("log"))
  {
    var ctx := CreateContext(Options(false, None, None));
    assert !ctx.anyConsole;
    if callee.Member? && callee.obj.Some? && callee.property.Some? {
      assert callee.obj.value in ["console"] <==> callee.obj.value == "console";
      assert callee.property.value in ["log"] <==> callee.property.value == "log";
    }
  }

  /**
   * With `reference` set to `'*'` (or to an empty list) any object counts:
   * a call is a console call exactly when its name, bare or as a property,
   * is one of the configured types.
   */
  lemma AnyConsoleClassifier(opts: Options, callee: Callee)
    requires opts.reference == Some(Wildcard) || opts.reference == Some(Names([]))
    ensures var ctx := CreateContext(opts);
      IsConsoleCall(ctx, callee) <==>
        (callee.Identifier? && callee.name in ctx.consoleType)
        || (callee.Member? && callee.property.Some? && callee.property.value in ctx.consoleType)
  {
  }

  /**
   * The classifier for any options, read from the options as given: a bare
   * call counts only when any object does, a member call needs its object
   * among the reference names (`console` by default) unless any object
   * counts, both need the called name among the types (`log` by default),
   * and no other callee ever counts.
   */
  lemma ConsoleCallIff(opts: Options, callee: Callee)
    ensures var types := if opts.consoleType.Some? then opts.consoleType.value else ["log"];
      var anyObject := opts.reference == Some(Wildcard) || opts.reference == Some(Names([]));
      var objects := if opts.reference == None then ["console"]
                     else if opts.reference.value.Names? then opts.reference.value.names else [];
      IsConsoleCall(CreateContext(opts), callee) <==>
        (callee.Identifier? && anyObject && callee.name in types)
        || (callee.Member? && callee.property.Some? && callee.property.value in types
            && (anyObject || (callee.obj.Some? && callee.obj.value in objects)))
  {
  }

  /** An empty `type` list matches nothing. */
  lemma EmptyTypeMatchesNothing(opts: Options, callee: Callee)
    requires opts.consoleType == Some([])
    ensures !IsConsoleCall(CreateContext(opts), callee)
  {
  }

  /*
   * The skip rule
   */

  /**
   * The rule a call is removed by, stated on the hunks directly: the call
   * has both positions, is a console call, and, when the status is truthy,
   * no line of its span is a line of any hunk.
   */
  predicate CallRemoved(opts: Options, status: Option<Status>, hunks: seq<Hunk>, site: Site) {
    site.lines.Some? && site.range.Some? && IsConsoleCall(CreateContext(opts), site.callee)
    && !(Truthy(status) && exists i, k :: site.lines.value.0 <= i <= site.lines.value.1
                                         && 0 <= k < |hunks| && Num(i) in hunks[k].lines)
  }

  /** The decision `transform` takes for each call agrees with the rule. */
  lemma RemovesIff(opts: Options, status: Option<Status>, hunks: seq<Hunk>, site: Site)
    ensures Removes(CreateContext(opts), DiffLines(status, hunks), site) <==> CallRemoved(opts, status, hunks, site)
  {
    hide Blocked, DiffLines;
    var d := DiffLines(status, hunks);
    if site.lines.Some? {
      var (a, b) := site.lines.value;
      if Truthy(status) && exists i, k :: a <= i <= b && 0 <= k < |hunks| && Num(i) in hunks[k].lines {
        var i, k :| a <= i <= b && 0 <= k < |hunks| && Num(i) in hunks[k].lines;
        assert Num(i) in d;
        assert Blocked(d, a, b);
      }
      if Blocked(d, a, b) {
        var i :| a <= i <= b && Num(i) in d;
        var k :| 0 <= k < |hunks| && Num(i) in hunks[k].lines;
      }
    }
  }

  /**
   * When there are no changed lines, because the status is falsy or the
   * diff has no hunks, every console call with both positions is removed.
   */
  lemma NoDiffRemovesAll(opts: Options, status: Option<Status>, site: Site)
    ensures Removes(CreateContext(opts), DiffLines(status, []), site)
      <==> site.lines.Some? && site.range.Some? && IsConsoleCall(CreateContext(opts), site.callee)
  {
  }

  /**
   * A file staged as modified (`IndexModified`, the falsy zero of the
   * enum) passes the gate in either mode, its diff is never read, and
   * every console call with both positions is removed from it.
   */
  lemma IndexModifiedQuirk(opts: Options, hunks: seq<Hunk>, site: Site)
    ensures PassesGate(opts.strict, Some(IndexModified))
    ensures DiffLines(Some(IndexModified), hunks) == {}
    ensures Removes(CreateContext(opts), DiffLines(Some(IndexModified), hunks), site)
      <==> site.lines.Some? && site.range.Some? && IsConsoleCall(CreateContext(opts), site.callee)
  {
    TruthyStatus(IndexModified);
  }

  /*
   * The output
   */

  /** Offset `x` lies in the range of a call the rule removes. */
  predicate RemovedAt(opts: Options, status: Option<Status>, hunks: seq<Hunk>, sites: seq<Site>, x: int) {
    exists k :: 0 <= k < |sites| && CallRemoved(opts, status, hunks, sites[k])
      && sites[k].range.value.start <= x < sites[k].range.value.end
  }

  /**
   * For a file that passes the gate, the output is the input with the
   * ranges of the removed calls cut out, and an offset is cut exactly when
   * it lies in the range of a call the rule removes.
   */
  lemma TransformCuts(opts: Options, status: Option<Status>, hunks: seq<Hunk>, code: string, sites: seq<Site>)
    requires PassesGate(opts.strict, status)
    ensures var rs := RemovedRanges(CreateContext(opts), DiffLines(status, hunks), sites);
      Transform(opts, true, status, hunks, code, sites) == Cut(code, rs)
      && forall x :: Covered(rs, x) <==> RemovedAt(opts, status, hunks, sites, x)
  {
    var ctx := CreateContext(opts);
    var d := DiffLines(status, hunks);
    var rs := RemovedRanges(ctx, d, sites);
    forall x ensures Covered(rs, x) <==> RemovedAt(opts, status, hunks, sites, x) {
      if Covered(rs, x) {
        var j :| 0 <= j < |rs| && rs[j].start <= x < rs[j].end;
        assert rs[j] in rs;
        var k :| 0 <= k < |sites| && Removes(ctx, d, sites[k]) && sites[k].range.value == rs[j];
        RemovesIff(opts, status, hunks, sites[k]);
      }
      if RemovedAt(opts, status, hunks, sites, x) {
        var k :| 0 <= k < |sites| && CallRemoved(opts, status, hunks, sites[k])
          && sites[k].range.value.start <= x < sites[k].range.value.end;
        RemovesIff(opts, status, hunks, sites[k]);
        var r := sites[k].range.value;
        assert r in rs;
        var j :| 0 <= j < |rs| && rs[j] == r;
      }
    }
  }

  /**
   * For a file that passes the gate, the output keeps exactly the code
   * units outside the removed calls' ranges, in order, and is shorter than
   * the input by the size of the union of those ranges.
   */
  lemma TransformOutput(opts: Options, status: Option<Status>, hunks: seq<Hunk>, code: string, sites: seq<Site>)
    requires PassesGate(opts.strict, status)
    ensures var out := Transform(opts, true, status, hunks, code, sites);
      var kept := KeptFrom(|code|, RemovedRanges(CreateContext(opts), DiffLines(status, hunks), sites), 0);
      && |out| == |code| - |set x | 0 <= x < |code| && RemovedAt(opts, status, hunks, sites, x)|
      && |out| == |kept|
      && (forall k :: 0 <= k < |kept| ==> out[k] == code[kept[k]] && !RemovedAt(opts, status, hunks, sites, kept[k]))
      && (forall x :: 0 <= x < |code| && !RemovedAt(opts, status, hunks, sites, x) ==> x in kept)
  {
    var rs := RemovedRanges(CreateContext(opts), DiffLines(status, hunks), sites);
    TransformCuts(opts, status, hunks, code, sites);
    CutSize(code, rs);
    CutKeeps(code, rs, 0);
    assert (set x | 0 <= x < |code| && Covered(rs, x))
      == (set x | 0 <= x < |code| && RemovedAt(opts, status, hunks, sites, x));
  }

  /** The calls of a file in a work tree that fails the gate are all kept. */
  lemma GateStopsAll(opts: Options, status: Option<Status>, hunks: seq<Hunk>, code: string, sites: seq<Site>)
    requires !PassesGate(opts.strict, status)
    ensures Transform(opts, true, status, hunks, code, sites) == code
  {
  }

  /*
   * From git's output
   */

  /**
   * Reading git's answers agrees with the decision on parsed values: the
   * transform rejects exactly when a command it runs fails or the diff it
   * reads has a header without a current range; the diff is run only for a
   * truthy status that passes the gate, and then matters only through its
   * hunks.
   */
  lemma TransformFileAgrees(opts: Options, repo: GitAnswer, status: GitAnswer, diff: GitAnswer,
                            code: string, parsed: ParseAnswer)
    requires repo.Printed? && IsRepoOutput(repo.text)
    ensures var r := TransformFile(opts, repo, status, diff, code, parsed);
      && (status.CommandFailed? ==> r == Failure(GitFailure))
      && (status.Printed? ==>
            var st := StatusOfOutput(status.text);
            && (!Truthy(st) && parsed.ParseFailed? ==> r == Failure(ParseFailure))
            && (!Truthy(st) && parsed.Parsed? ==>
                  r == Success(Transform(opts, true, st, [], code, parsed.sites)))
            && (Truthy(st) && !PassesGate(opts.strict, st) ==> r == Success(code))
            && (Truthy(st) && PassesGate(opts.strict, st) ==>
                  && (diff.CommandFailed? ==> r == Failure(GitFailure))
                  && (diff.Printed? && ParseDiff(diff.text).Failure? ==>
                        r == Failure(DiffFailure(ParseDiff(diff.text).error)))
                  && (diff.Printed? && ParseDiff(diff.text).Success? && parsed.ParseFailed? ==>
                        r == Failure(ParseFailure))
                  && (diff.Printed? && ParseDiff(diff.text).Success? && parsed.Parsed? ==>
                        r == Success(Transform(opts, true, st, ParseDiff(diff.text).value, code, parsed.sites)))))
  {
  }

  /**
   * A transform rejects exactly when a git command it runs fails, a diff
   * header it reads is bad, or, for a file past the gate whose diff was
   * read without error, the parse fails.
   */
  lemma TransformFileRejects(opts: Options, repo: GitAnswer, status: GitAnswer, diff: GitAnswer,
                             code: string, parsed: ParseAnswer)
    ensures TransformFile(opts, repo, status, diff, code, parsed).Failure? <==>
      || repo.CommandFailed?
      || (IsRepoOutput(repo.text) && status.CommandFailed?)
      || (IsRepoOutput(repo.text) && status.Printed? && Truthy(StatusOfOutput(status.text))
          && PassesGate(opts.strict, StatusOfOutput(status.text))
          && (diff.CommandFailed? || ParseDiff(diff.text).Failure?))
      || (IsRepoOutput(repo.text) && status.Printed? && PassesGate(opts.strict, StatusOfOutput(status.text))
          && parsed.ParseFailed?
          && (!Truthy(StatusOfOutput(status.text)) || (diff.Printed? && ParseDiff(diff.text).Success?)))
  {
  }

  /** The answer of a file outside any work tree is the code as it is. */
  lemma OutsideWorkTree(opts: Options, repo: GitAnswer, status: GitAnswer, diff: GitAnswer,
                        code: string, parsed: ParseAnswer)
    requires repo == Printed("false\n")
    ensures TransformFile(opts, repo, status, diff, code, parsed) == Success(code)
  {
    RepoAnswer();
  }

  /** A work tree answers `true` followed by a newline. */
  lemma RepoAnswer()
    ensures IsRepoOutput("true\n")
    ensures !IsRepoOutput("false\n")
  {
    hide IsRepoOutput;
    assert TrimmedAt("true\n", "true", 0) by {
      assert "true\n"[0..4] == "true";
    }
    TrimLine("false");
    assert "false" + ['\n'] == "false\n";
    RepoOutputIff("false\n");
  }

  /*
   * A worked example
   */

  /** A call on the first line of `a;console.log(1);b`, covering `console.log(1)`. */
  const ExampleCode: string := "a;console.log(1);b"
  const ExampleSite: Site := Site(Member(Some("console"), Some("log")), Some((1, 1)), Some(Range(2, 16)))

  /** An unchanged file loses its `console.log` call. */
  lemma ExampleCommitted()
    ensures Transform(Options(false, None, None), true, None, [], ExampleCode, [ExampleSite]) == "a;;b"
  {
    var opts := Options(false, None, None);
    DefaultClassifier(ExampleSite.callee);
    NoDiffRemovesAll(opts, None, ExampleSite);
    assert RemovedRanges(CreateContext(opts), {}, [ExampleSite]) == [Range(2, 16)];
    ExampleCut();
  }

  lemma ExampleCut()
    ensures Cut(ExampleCode, [Range(2, 16)]) == "a;;b"
  {
    var rs := [Range(2, 16)];
    assert !Covered(rs, 0) && !Covered(rs, 1) && !Covered(rs, 16) && !Covered(rs, 17);
    forall x | 2 <= x < 16 ensures Covered(rs, x) {
      assert rs[0].start <= x < rs[0].end;
    }
    CutSkips(ExampleCode, rs, 2, 16);
    assert |ExampleCode| == 18 && ExampleCode[16] == ';' && ExampleCode[17] == 'b';
    assert CutFrom(ExampleCode, rs, 18) == [];
    assert CutFrom(ExampleCode, rs, 17) == "b";
    assert CutFrom(ExampleCode, rs, 16) == ";b";
    assert CutFrom(ExampleCode, rs, 1) == ";" + CutFrom(ExampleCode, rs, 2);
  }

  /** In strict mode, a modified file keeps the call on a changed line. */
  lemma ExampleChanged(h: Hunk)
    requires Num(1) in h.lines
    ensures Transform(Options(true, None, None), true, Some(Modified), [h], ExampleCode, [ExampleSite]) == ExampleCode
  {
    var opts := Options(true, None, None);
    var d := DiffLines(Some(Modified), [h]);
    assert Num(1) in d;
    assert Blocked(d, 1, 1);
    assert RemovedRanges(CreateContext(opts), d, [ExampleSite]) == [];
    CutNothing(ExampleCode, 0);
  }
}

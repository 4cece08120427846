/**
  The generator launcher (`DenoExecutable`): it resolves the command for the
  host system, assembles the tool's parameters from a flag string and an
  input file, and picks the working directory from the project.
 */
module Deno {
  import opened Wrappers
  import opened JavaString
  import opened StringUtils
  import opened Platform

  /**
    A project as far as the launcher sees it: `directory` is the project root
    on the local disk, or `None` when it cannot be resolved to a file.
   */
  datatype Project = Project(directory: Option<string>)

  datatype DenoExecutable = DenoExecutable(path: string, project: Option<Project>, variant: Variant)

  /** `getDefault`/`createExecutable`: the stored path is the executable name itself. */
  function GetDefault(os: Os, project: Option<Project>): (e: DenoExecutable)
    ensures e.path == (if os == Windows then "/deno.exe" else "/deno")
    ensures e.project == project
    ensures e.variant == MacWrapped <==> os == Mac
  {
    DenoExecutable(ExecutableName(os), project, VariantFor(os))
  }

  /** `getCommand`: the stored path, or the login shell for the macOS variant. */
  function Command(e: DenoExecutable): (r: string)
    ensures e.variant == Default ==> r == e.path
    ensures e.variant == MacWrapped ==> r == BashCommand
  {
    CommandFor(e.variant, e.path)
  }

  /** On macOS the command does not depend on where the tool lives. */
  lemma MacCommandIgnoresPath(e1: DenoExecutable, e2: DenoExecutable)
    requires e1.variant == MacWrapped && e2.variant == MacWrapped
    ensures Command(e1) == Command(e2) == "/bin/bash -lc"
  {
  }

  /**
    `getWorkDir`: the process-wide temporary directory without a project,
    otherwise the project root on disk (absent when it cannot be resolved).
   */
  function WorkDir(e: DenoExecutable, tmpDir: string): (r: Option<string>)
    ensures e.project.None? ==> r == Some(tmpDir)
    ensures e.project.Some? ==> r == e.project.value.directory
  {
    match e.project
    case None => Some(tmpDir)
    case Some(p) => p.directory
  }

  /** An absolute path with every `\` turned into `/`. */
  function NormalizeSeparators(path: string): (r: string)
    ensures |r| == |path|
    ensures '\\' !in r
    ensures forall i :: 0 <= i < |path| && path[i] != '\\' ==> r[i] == path[i]
  {
    ReplaceChar(path, '\\', '/')
  }

  /**
    `replace("\\", "/")` on strings: every match of the one-character target
    is replaced, which is the pieces between matches joined by the replacement.
    For one-character strings this is the per-character replacement.
   */
  lemma {:induction false} ReplaceStringIsReplaceChar(s: string, from: char, to: char)
    ensures Implode(Pieces(s, [from]), [to]) == ReplaceChar(s, from, to)
    decreases |s|
  {
    if |s| > 0 {
      ReplaceStringIsReplaceChar(s[1..], from, to);
      var rest := Pieces(s[1..], [from]);
      if [from] <= s {
        assert s[|[from]|..] == s[1..];
        assert Pieces(s, [from]) == [""] + rest;
        ImplodeCons("", rest, [to]);
        assert ReplaceChar(s, from, to) == [to] + ReplaceChar(s[1..], from, to);
      } else {
        assert s[0] != from;
        assert Pieces(s, [from]) == [[s[0]] + rest[0]] + rest[1..];
        ImplodeExtendFirst(s[0], rest, [to]);
      }
    }
  }

  /** Normalizing twice changes nothing more. */
  lemma NormalizeIdempotent(path: string)
    ensures NormalizeSeparators(NormalizeSeparators(path)) == NormalizeSeparators(path)
  {
  }

  /** The tokens of the statements, in order: each statement split on single spaces. */
  function SplitStatements(statements: seq<string>): (r: seq<string>)
    ensures forall i :: 0 <= i < |r| ==> !Contains(r[i], " ")
  {
    if statements == [] then []
    else Split(statements[0], " ") + SplitStatements(statements[1..])
  }

  lemma {:induction false} SplitStatementsSnoc(statements: seq<string>, s: string)
    ensures SplitStatements(statements + [s]) == SplitStatements(statements) + Split(s, " ")
    decreases |statements|
  {
    if statements == [] {
      assert SplitStatements([s]) == Split(s, " ") + SplitStatements([]);
    } else {
      assert (statements + [s])[1..] == statements[1..] + [s];
      SplitStatementsSnoc(statements[1..], s);
    }
  }

  /**
    The tokens of a flag string: nothing for `""`; otherwise the string is cut
    into statements on `"; "` and each statement into tokens on `" "`, both
    with Java's `split`.
   */
  function FlagTokens(flags: string): (r: seq<string>)
    ensures flags == "" ==> r == []
    ensures forall i :: 0 <= i < |r| ==> !Contains(r[i], " ")
  {
    if flags == "" then [] else SplitStatements(Split(flags, "; "))
  }

  /** `"` + `x` + `"`, with nothing inside escaped. */
  function Quote(x: string): (r: string)
    ensures |r| == |x| + 2
    ensures r[0] == '"' && r[|r| - 1] == '"' && r[1..|r| - 1] == x
  {
    "\"" + x + "\""
  }

  function QuoteAll(xs: seq<string>): (r: seq<string>)
    ensures |r| == |xs|
    ensures forall i :: 0 <= i < |xs| ==> r[i] == Quote(xs[i])
  {
    if xs == [] then [] else [Quote(xs[0])] + QuoteAll(xs[1..])
  }

  /** Imploding with `" "` between quotes is the same as quoting each item and joining with spaces. */
  lemma {:induction false} QuotedImplode(xs: seq<string>)
    requires xs != []
    ensures "\"" + Implode(xs, "\" \"") + "\"" == Implode(QuoteAll(xs), " ")
    decreases |xs|
  {
    if |xs| == 1 {
      assert QuoteAll(xs) == [Quote(xs[0])];
    } else {
      var ys := xs[1..];
      QuotedImplode(ys);
      assert xs == [xs[0]] + ys;
      ImplodeCons(xs[0], ys, "\" \"");
      assert QuoteAll(xs) == [Quote(xs[0])] + QuoteAll(ys);
      ImplodeCons(Quote(xs[0]), QuoteAll(ys), " ");
      calc {
        "\"" + Implode(xs, "\" \"") + "\"";
        "\"" + (xs[0] + "\" \"" + Implode(ys, "\" \"")) + "\"";
        ("\"" + xs[0] + "\"") + " " + ("\"" + Implode(ys, "\" \"") + "\"");
        Quote(xs[0]) + " " + Implode(QuoteAll(ys), " ");
      }
    }
  }

  /**
    `getParams`: the parameters unchanged for the default variant; on macOS one
    shell command line quoting the tool path and every parameter. An empty
    parameter list still yields a quoted empty argument after the path.
   */
  function Params(e: DenoExecutable, params: seq<string>): (r: seq<string>)
    ensures e.variant == Default ==> r == params
    ensures e.variant == MacWrapped ==>
              r == [Implode(QuoteAll([e.path] + (if params == [] then [""] else params)), " ")]
  {
    match e.variant
    case Default => params
    case MacWrapped =>
      var shown := if params == [] then [""] else params;
      ImplodeCons(e.path, shown, "\" \"");
      QuotedImplode([e.path] + shown);
      assert Implode(shown, "\" \"") == Implode(params, "\" \"");
      assert "\"" + Implode([e.path] + shown, "\" \"") + "\""
          == "\"" + e.path + "\" \"" + Implode(params, "\" \"") + "\"";
      ["\"" + e.path + "\" \"" + Implode(params, "\" \"") + "\""]
  }

  /**
    `getGenerateParams`: the flag tokens, then the input path with forward
    slashes, passed through `getParams`. The output path is not used.
   */
  function GenerateParams(e: DenoExecutable, inputPath: string, outputPath: string, flags: string): (r: seq<string>)
    ensures e.variant == Default ==>
              |r| >= 1 && r[..|r| - 1] == FlagTokens(flags)
              && r[|r| - 1] == NormalizeSeparators(inputPath) && '\\' !in r[|r| - 1]
    ensures e.variant == Default && flags == "" ==> r == [NormalizeSeparators(inputPath)]
    ensures e.variant == MacWrapped ==>
              r == [Implode(QuoteAll([e.path] + FlagTokens(flags) + [NormalizeSeparators(inputPath)]), " ")]
  {
    var params := FlagTokens(flags) + [NormalizeSeparators(inputPath)];
    assert [e.path] + params == [e.path] + FlagTokens(flags) + [NormalizeSeparators(inputPath)];
    Params(e, params)
  }

  /** For the default variant the parameters are the flag tokens followed by the input path. */
  lemma DefaultParams(e: DenoExecutable, inputPath: string, outputPath: string, flags: string)
    requires e.variant == Default
    ensures GenerateParams(e, inputPath, outputPath, flags) == FlagTokens(flags) + [NormalizeSeparators(inputPath)]
  {
    var r := GenerateParams(e, inputPath, outputPath, flags);
    assert r == r[..|r| - 1] + [r[|r| - 1]];
  }

  /** The output file never influences the parameters. */
  lemma OutputPathIgnored(e: DenoExecutable, inputPath: string, out1: string, out2: string, flags: string)
    ensures GenerateParams(e, inputPath, out1, flags) == GenerateParams(e, inputPath, out2, flags)
  {
  }

  /**
    The loop of `getGenerateParams` before `getParams`: statements are split
    and their tokens appended one statement at a time, then the input path.
   */
  method CollectParams(inputPath: string, flags: string) returns (params: seq<string>)
    ensures |params| >= 1 && params[|params| - 1] == NormalizeSeparators(inputPath)
    ensures params == FlagTokens(flags) + [NormalizeSeparators(inputPath)]
  {
    params := [];
    if flags != "" {
      var statements := Split(flags, "; ");
      var i := 0;
      while i < |statements|
        invariant 0 <= i <= |statements|
        invariant params == SplitStatements(statements[..i])
      {
        SplitStatementsSnoc(statements[..i], statements[i]);
        assert statements[..i + 1] == statements[..i] + [statements[i]];
        params := params + Split(statements[i], " ");
        i := i + 1;
      }
      assert statements[..i] == statements;
    }
    params := params + [NormalizeSeparators(inputPath)];
  }

  /**
    `generate`: a project is required and the call must not come from the
    event-dispatch thread. The invocation runs `getCommand` with the generated
    parameters in the project's directory. `tmpDir` is what `getWorkDir` would
    fall back to; it is passed on to `WorkDir` as the source calls it, and with
    a project present it is never consulted.
   */
  method Generate(e: DenoExecutable, inputPath: string, outputPath: string, flags: string,
                  onDispatchThread: bool, tmpDir: string) returns (inv: Invocation)
    requires !onDispatchThread
    requires e.project.Some?
    ensures inv.command == Command(e)
    ensures inv.args == GenerateParams(e, inputPath, outputPath, flags)
    ensures inv.workDir == e.project.value.directory
  {
    var params := CollectParams(inputPath, flags);
    inv := Invocation(Command(e), Params(e, params), WorkDir(e, tmpDir));
  }

  /** Statements joined with `"; "` come back as the same statements' tokens. */
  lemma FlagTokensOfStatements(statements: seq<string>)
    requires statements != []
    requires forall i :: 0 <= i < |statements| ==> !Contains(statements[i], "; ")
    requires statements[|statements| - 1] != ""
    ensures FlagTokens(Implode(statements, "; ")) == SplitStatements(statements)
  {
    var flags := Implode(statements, "; ");
    SplitImplode(statements, "; ");
    if flags == "" {
      ImplodeNonEmptyLast(statements, "; ");
    }
  }

  /** A path without backslashes is already normalized. */
  lemma NormalizeKeeps(path: string)
    requires '\\' !in path
    ensures NormalizeSeparators(path) == path
  {
  }

  /** Two statements of two tokens each, none holding a space or a semicolon. */
  lemma FlagTokensOfTwoPairs(a: string, b: string, c: string, d: string)
    requires ' ' !in a && ' ' !in b && ' ' !in c && ' ' !in d
    requires ';' !in a && ';' !in b && ';' !in c && ';' !in d
    requires b != "" && d != ""
    ensures FlagTokens(a + " " + b + "; " + c + " " + d) == [a, b, c, d]
  {
    DelimitersBorderFree();
    var x := a + " " + b;
    var y := c + " " + d;
    assert a + " " + b + "; " + c + " " + d == x + "; " + y;
    PiecesOfPair(x, y, "; ");
    PiecesOfPair(a, b, " ");
    PiecesOfPair(c, d, " ");
    assert [x, y][1..] == [y] && [y][1..] == [];
    assert SplitStatements([y]) == [c, d] + [];
    assert SplitStatements([x, y]) == [a, b] + [c, d];
  }

  /** The flag string `-a 1; -b two` is two statements of two tokens each. */
  lemma ExampleFlagTokens()
    ensures FlagTokens("-a 1; -b two") == ["-a", "1", "-b", "two"]
  {
    assert "-a 1; -b two" == "-a" + " " + "1" + "; " + "-b" + " " + "two";
    FlagTokensOfTwoPairs("-a", "1", "-b", "two");
  }

  /** For the default variant four flag tokens are followed by the normalized input path. */
  lemma DefaultParamsOfFourTokens(e: DenoExecutable, inputPath: string, outputPath: string, flags: string,
                                  a: string, b: string, c: string, d: string)
    requires e.variant == Default
    requires FlagTokens(flags) == [a, b, c, d]
    ensures GenerateParams(e, inputPath, outputPath, flags) == [a, b, c, d, NormalizeSeparators(inputPath)]
  {
    DefaultParams(e, inputPath, outputPath, flags);
  }

  /** The default variant lists the tokens and the input path as given. */
  lemma ExampleDefaultParams(project: Option<Project>, outputPath: string)
    ensures GenerateParams(GetDefault(Other, project), "/tmp/in.ts", outputPath, "-a 1; -b two")
         == ["-a", "1", "-b", "two", "/tmp/in.ts"]
  {
    var e := GetDefault(Other, project);
    ExampleFlagTokens();
    DefaultParamsOfFourTokens(e, "/tmp/in.ts", outputPath, "-a 1; -b two", "-a", "1", "-b", "two");
    NormalizeKeeps("/tmp/in.ts");
  }

  /** Six items joined: the delimiter between each neighbouring pair. */
  lemma ImplodeSix(xs: seq<string>, d: string)
    requires |xs| == 6
    ensures Implode(xs, d) == xs[0] + d + xs[1] + d + xs[2] + d + xs[3] + d + xs[4] + d + xs[5]
  {
    assert xs == [xs[0]] + ([xs[1]] + ([xs[2]] + ([xs[3]] + ([xs[4]] + [xs[5]]))));
    ImplodeCons(xs[4], [xs[5]], d);
    ImplodeCons(xs[3], [xs[4]] + [xs[5]], d);
    ImplodeCons(xs[2], [xs[3]] + ([xs[4]] + [xs[5]]), d);
    ImplodeCons(xs[1], [xs[2]] + ([xs[3]] + ([xs[4]] + [xs[5]])), d);
    ImplodeCons(xs[0], [xs[1]] + ([xs[2]] + ([xs[3]] + ([xs[4]] + [xs[5]]))), d);
  }

  /** On macOS four flag tokens and the input path become one line of six quoted words. */
  lemma MacParamsOfFourTokens(e: DenoExecutable, inputPath: string, outputPath: string, flags: string,
                              a: string, b: string, c: string, d: string)
    requires e.variant == MacWrapped
    requires FlagTokens(flags) == [a, b, c, d]
    ensures GenerateParams(e, inputPath, outputPath, flags)
         == [Quote(e.path) + " " + Quote(a) + " " + Quote(b) + " "
             + Quote(c) + " " + Quote(d) + " " + Quote(NormalizeSeparators(inputPath))]
  {
    var xs := [e.path] + FlagTokens(flags) + [NormalizeSeparators(inputPath)];
    assert xs == [e.path, a, b, c, d, NormalizeSeparators(inputPath)];
    ImplodeSix(QuoteAll(xs), " ");
  }

  /**
    The macOS variant quotes the tool path and every parameter into one line:
    `"/usr/local/bin/deno" "-a" "1" "-b" "two" "/tmp/in.ts"`.
   */
  lemma ExampleMacParams(project: Option<Project>, outputPath: string)
    ensures GenerateParams(DenoExecutable("/usr/local/bin/deno", project, MacWrapped),
                           "/tmp/in.ts", outputPath, "-a 1; -b two")
         == [Quote("/usr/local/bin/deno") + " " + Quote("-a") + " " + Quote("1") + " "
             + Quote("-b") + " " + Quote("two") + " " + Quote("/tmp/in.ts")]
  {
    ExampleFlagTokens();
    var e := DenoExecutable("/usr/local/bin/deno", project, MacWrapped);
    MacParamsOfFourTokens(e, "/tmp/in.ts", outputPath, "-a 1; -b two", "-a", "1", "-b", "two");
    var n := NormalizeSeparators("/tmp/in.ts");
    NormalizeKeeps("/tmp/in.ts");
    var line := Quote("/usr/local/bin/deno") + " " + Quote("-a") + " " + Quote("1") + " "
             + Quote("-b") + " " + Quote("two") + " ";
    assert GenerateParams(e, "/tmp/in.ts", outputPath, "-a 1; -b two") == [line + Quote(n)];
  }

  /** Two backslashes between backslash-free parts both become slashes. */
  lemma NormalizeAround(a: string, b: string, c: string)
    requires '\\' !in a && '\\' !in b && '\\' !in c
    ensures NormalizeSeparators(a + "\\" + b + "\\" + c) == a + "/" + b + "/" + c
  {
    var bs := "\\";
    var p1 := a + bs;
    var p2 := p1 + b;
    var p3 := p2 + bs;
    ReplaceCharConcat(a, bs, '\\', '/');
    ReplaceCharConcat(p1, b, '\\', '/');
    ReplaceCharConcat(p2, bs, '\\', '/');
    ReplaceCharConcat(p3, c, '\\', '/');
    NormalizeKeeps(a);
    NormalizeKeeps(b);
    NormalizeKeeps(c);
    assert ReplaceChar(bs, '\\', '/') == "/";
  }

  /** A Windows path gets forward slashes. */
  lemma ExampleWindowsPath()
    ensures NormalizeSeparators("C:\\proj\\in.ts") == "C:/proj/in.ts"
  {
    assert "C:\\proj\\in.ts" == "C:" + "\\" + "proj" + "\\" + "in.ts";
    NormalizeAround("C:", "proj", "in.ts");
    assert "C:" + "/" + "proj" + "/" + "in.ts" == "C:/proj/in.ts";
  }

  /** With no flags a Windows path is the only parameter, with forward slashes. */
  lemma ExampleEmptyFlags(project: Option<Project>, outputPath: string)
    ensures GenerateParams(GetDefault(Windows, project), "C:\\proj\\in.ts", outputPath, "")
         == ["C:/proj/in.ts"]
  {
    var e := GetDefault(Windows, project);
    assert GenerateParams(e, "C:\\proj\\in.ts", outputPath, "") == [NormalizeSeparators("C:\\proj\\in.ts")];
    ExampleWindowsPath();
  }
}

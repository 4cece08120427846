# DenoBeans launcher: command and argument assembly

This project models, in Dafny, how the DenoBeans NetBeans plugin prepares to launch
the Deno tool. Two launchers exist: the generator (`DenoExecutable`), which runs the
tool on an input file with flags taken from the options, and the installer
(`InstallerExecutable`), which runs it with nothing else. For each launcher the model
covers:

- **command resolution**: the executable name (`/deno.exe` on Windows, `/deno`
  elsewhere), the choice of the macOS variant, and the command that variant runs
  (`/bin/bash -lc` in place of the tool path);
- **argument assembly**: the flag string is cut into statements on `"; "` and each
  statement into tokens on `" "`, with exactly the semantics of Java's `String.split`.
  The input path follows with every `\` replaced by `/`. On macOS the whole list
  becomes one shell line in which every word is wrapped in double quotes, with nothing
  escaped;
- **working directory**: the temporary directory without a project, the project root
  otherwise. The installer sets none;
- **the string helpers** `hasText`, `isEmpty`, `implode` and `explode`.

The host operating system is an input (`Platform.Os`). Where the source lets a string
be `null` (the input of `hasText`, `isEmpty` and `explode`), a Java `null` is
`Wrappers.None`; elsewhere strings are taken as non-null. A launch is described by a `Platform.Invocation`: the command, the
parameters and the working directory handed to the process layer.

Modules: `Wrappers` (Option), `JavaString` (`trim`, `replace` and `split` as
`java.lang.String` defines them), `StringUtils`, `Platform` (what both launchers
share), `Deno` (the generator) and `Installer`.

Points of the code worth knowing, all followed as written:

- The installer sets no working directory: the `.workDir(getWorkDir())` line in
  `InstallerExecutable.getExecutable` is commented out.
- `getDefault` stores the executable name itself (`/deno` or `/deno.exe`) as the tool
  path.
- Re-joining the tokens and splitting again does not always give back the same tokens.
  For example, a statement made only of spaces yields no tokens, but an empty statement
  in the middle of the string yields one empty token. What does hold is
  `Deno.FlagTokensOfStatements`: statements joined with `"; "` are split back into the
  same statements' tokens, provided the last statement is not empty.

## Model

| member | source | states |
|---|---|---|
| JavaString.Trim | src/main/java/io/github/chris2011/netbeans/plugins/denobeans/options/StringUtils.java:29 | `trim` keeps one infix of the input; everything cut away on either side is `<= ' '`; a non-empty result begins and ends above `' '` |
| JavaString.TrimEmptyIff | src/main/java/io/github/chris2011/netbeans/plugins/denobeans/options/StringUtils.java:29 | trimming leaves nothing exactly when every character is `<= ' '` |
| JavaString.ReplaceChar | src/main/java/io/github/chris2011/netbeans/plugins/denobeans/DenoExecutable.java:126 | `replace` keeps the length, turns each `from` into `to`, keeps every other character, and leaves no `from` behind |
| Deno.ReplaceStringIsReplaceChar | src/main/java/io/github/chris2011/netbeans/plugins/denobeans/DenoExecutable.java:126 | the `replace(CharSequence, CharSequence)` overload the source calls (every match of the one-character target replaced, the pieces joined by the replacement) equals the per-character replacement |
| JavaString.Pieces | src/main/java/io/github/chris2011/netbeans/plugins/denobeans/options/StringUtils.java:86 | the pieces between leftmost non-overlapping delimiter matches: at least one piece; the first is a prefix of the input; a single piece is the whole input |
| JavaString.PiecesAvoidDelimiter | src/main/java/io/github/chris2011/netbeans/plugins/denobeans/options/StringUtils.java:86 | no piece contains the delimiter, and there is more than one piece exactly when the delimiter occurs |
| JavaString.DropTrailingEmpty | src/main/java/io/github/chris2011/netbeans/plugins/denobeans/options/StringUtils.java:86 | removes every trailing empty string and nothing else: the result is a prefix, ends with a non-empty string or is empty, and all removed entries were empty |
| JavaString.Split | src/main/java/io/github/chris2011/netbeans/plugins/denobeans/DenoExecutable.java:116-119 | Java `split` with a literal delimiter: no token contains the delimiter; no match gives `[s]` (even for `""`); otherwise the result is the pieces with exactly the trailing empty ones dropped (a prefix of the pieces, ending in a non-empty piece or empty, and every dropped piece is empty) |
| JavaString.FirstCharAbsent | src/main/java/io/github/chris2011/netbeans/plugins/denobeans/options/StringUtils.java:86 | a string without the delimiter's first character does not contain the delimiter |
| JavaString.ReplaceCharConcat | src/main/java/io/github/chris2011/netbeans/plugins/denobeans/DenoExecutable.java:126 | replacing characters in a concatenation is the concatenation of the replaced parts |
| StringUtils.HasText | src/main/java/io/github/chris2011/netbeans/plugins/denobeans/options/StringUtils.java:28-30 | `hasText` holds exactly when the string is non-null and has some character above `' '` |
| StringUtils.IsEmpty | src/main/java/io/github/chris2011/netbeans/plugins/denobeans/options/StringUtils.java:40-42 | `isEmpty` is null or no characters, and an empty input never has text |
| StringUtils.IsEmptyIff | src/main/java/io/github/chris2011/netbeans/plugins/denobeans/options/StringUtils.java:40-42 | `isEmpty` holds exactly for null and `""`; a blank string is not empty |
| StringUtils.HasTextNotEmpty | src/main/java/io/github/chris2011/netbeans/plugins/denobeans/options/StringUtils.java:20-42 | `hasText` implies not `isEmpty`; `" "` shows that the converse fails |
| StringUtils.ImplodeEnds | src/main/java/io/github/chris2011/netbeans/plugins/denobeans/options/StringUtils.java:52-70 | `implode` of no items is `""`; otherwise the joined string starts with the first item and ends with the last |
| StringUtils.ImplodeCons | src/main/java/io/github/chris2011/netbeans/plugins/denobeans/options/StringUtils.java:60-69 | putting an item in front of a non-empty list adds the item and one delimiter in front |
| StringUtils.ImplodeSnoc | src/main/java/io/github/chris2011/netbeans/plugins/denobeans/options/StringUtils.java:60-69 | adding an item after a non-empty list adds exactly one delimiter and the item at the end, so delimiters appear only between items |
| StringUtils.ImplodeBuffered | src/main/java/io/github/chris2011/netbeans/plugins/denobeans/options/StringUtils.java:52-70 | the buffer loop with its `first` flag gives `""` for no items, the item itself for one item, and in general the items joined by the delimiter |
| StringUtils.Explode | src/main/java/io/github/chris2011/netbeans/plugins/denobeans/options/StringUtils.java:79-87 | `explode` needs a non-empty delimiter; gives the empty list when there is no text; gives `[s]` when the delimiter does not occur; no element contains the delimiter |
| StringUtils.ImplodePieces | src/main/java/io/github/chris2011/netbeans/plugins/denobeans/options/StringUtils.java:86 | joining all the raw pieces with the delimiter rebuilds the input |
| StringUtils.SplitRebuilds | src/main/java/io/github/chris2011/netbeans/plugins/denobeans/options/StringUtils.java:86 | `split` loses only whole delimiters at the end: the input is the joined tokens followed by some number of delimiters |
| StringUtils.ExplodeImplode | src/main/java/io/github/chris2011/netbeans/plugins/denobeans/options/StringUtils.java:52-87 | round trip, both directions: for a string with text, `implode(explode(s, d), d) == s` exactly when the delimiter does not occur or the last piece is not empty, that is, when `split` drops nothing |
| StringUtils.ExplodeImplodeNoTrailingDelimiter | src/main/java/io/github/chris2011/netbeans/plugins/denobeans/options/StringUtils.java:52-87 | in particular the round trip holds for text that does not end with the delimiter |
| StringUtils.PiecesOfImplode | src/main/java/io/github/chris2011/netbeans/plugins/denobeans/options/StringUtils.java:52-87 | with a border-free delimiter that no item contains, the joined string falls apart into exactly the items |
| StringUtils.SplitImplode | src/main/java/io/github/chris2011/netbeans/plugins/denobeans/options/StringUtils.java:52-87 | the other round trip: `split` undoes `implode` for such items when the last item is not empty or is the only one |
| StringUtils.DelimitersBorderFree | src/main/java/io/github/chris2011/netbeans/plugins/denobeans/DenoExecutable.java:116-119 | the two delimiters the launcher splits on, `" "` and `"; "`, are border-free, so their occurrences never overlap |
| StringUtils.SplitExamples | src/main/java/io/github/chris2011/netbeans/plugins/denobeans/DenoExecutable.java:119 | `"a  b"` gives `["a","","b"]`, `"a b "` gives `["a","b"]`, `" a"` keeps its leading empty token, `" "` gives nothing, `""` gives `[""]` |
| Platform.ExecutableName | src/main/java/io/github/chris2011/netbeans/plugins/denobeans/DenoExecutable.java:29-35 | `DENO_EXECUTABLE_NAME` starts with `/deno` and ends with `.exe` exactly on Windows; the installer's constant at InstallerExecutable.java:14-20 is the same |
| Platform.VariantFor | src/main/java/io/github/chris2011/netbeans/plugins/denobeans/DenoExecutable.java:51-56 | the macOS variant is chosen exactly when the system is macOS |
| Platform.CommandFor | src/main/java/io/github/chris2011/netbeans/plugins/denobeans/DenoExecutable.java:142-151 | the default variant runs the stored path; the macOS variant runs `/bin/bash -lc` |
| Deno.GetDefault | src/main/java/io/github/chris2011/netbeans/plugins/denobeans/DenoExecutable.java:46-56 | the generator stores `/deno.exe` on Windows and `/deno` elsewhere, keeps the project, and is the macOS variant exactly on macOS |
| Deno.Command | src/main/java/io/github/chris2011/netbeans/plugins/denobeans/DenoExecutable.java:58-60 | the generator's command is its stored path, or `/bin/bash -lc` for the macOS variant |
| Deno.MacCommandIgnoresPath | src/main/java/io/github/chris2011/netbeans/plugins/denobeans/DenoExecutable.java:148-151 | on macOS the command is `/bin/bash -lc` whatever path is stored |
| Deno.WorkDir | src/main/java/io/github/chris2011/netbeans/plugins/denobeans/DenoExecutable.java:100-110 | the temporary directory without a project, otherwise the project root on disk (absent when it cannot be resolved) |
| Deno.NormalizeSeparators | src/main/java/io/github/chris2011/netbeans/plugins/denobeans/DenoExecutable.java:126 | the normalized path has the same length, no backslash, and every other character in place |
| Deno.NormalizeIdempotent | src/main/java/io/github/chris2011/netbeans/plugins/denobeans/DenoExecutable.java:126 | normalizing a second time changes nothing |
| Deno.SplitStatements | src/main/java/io/github/chris2011/netbeans/plugins/denobeans/DenoExecutable.java:118-122 | the tokens of a list of statements contain no space |
| Deno.SplitStatementsSnoc | src/main/java/io/github/chris2011/netbeans/plugins/denobeans/DenoExecutable.java:118-122 | one more statement appends exactly its own tokens after the earlier ones |
| Deno.FlagTokens | src/main/java/io/github/chris2011/netbeans/plugins/denobeans/DenoExecutable.java:115-123 | an empty flag string gives no tokens; no token contains a space |
| Deno.QuotedImplode | src/main/java/io/github/chris2011/netbeans/plugins/denobeans/DenoExecutable.java:155-160 | joining with `" "` (quote, space, quote) inside outer quotes is the same as quoting each item and joining with spaces |
| Deno.Quote | src/main/java/io/github/chris2011/netbeans/plugins/denobeans/DenoExecutable.java:155-160 | a quoted word is the word between two double quotes, two characters longer, with nothing escaped |
| Deno.QuoteAll | src/main/java/io/github/chris2011/netbeans/plugins/denobeans/DenoExecutable.java:155-160 | quoting a list keeps its length and quotes each element in place |
| Deno.Params | src/main/java/io/github/chris2011/netbeans/plugins/denobeans/DenoExecutable.java:133-163 | the default `getParams` is the identity; the macOS one returns a single line of the quoted tool path and quoted parameters, with an empty quoted word when there are no parameters |
| Deno.GenerateParams | src/main/java/io/github/chris2011/netbeans/plugins/denobeans/DenoExecutable.java:112-131 | default variant: the flag tokens in order, then the normalized input path last, which holds no backslash; with empty flags only the path; macOS: one line quoting the tool path, the tokens and the path |
| Deno.DefaultParams | src/main/java/io/github/chris2011/netbeans/plugins/denobeans/DenoExecutable.java:112-137 | for the default variant the parameters are exactly the flag tokens followed by the normalized input path |
| Deno.OutputPathIgnored | src/main/java/io/github/chris2011/netbeans/plugins/denobeans/DenoExecutable.java:127-128 | the output file never changes the parameters |
| Deno.CollectParams | src/main/java/io/github/chris2011/netbeans/plugins/denobeans/DenoExecutable.java:112-128 | the statement-by-statement loop collects the flag tokens and then the normalized input path as the last element |
| Deno.Generate | src/main/java/io/github/chris2011/netbeans/plugins/denobeans/DenoExecutable.java:65-85 | needs a project and a caller off the dispatch thread; runs `getCommand` with the generated parameters in the project's directory |
| Deno.FlagTokensOfStatements | src/main/java/io/github/chris2011/netbeans/plugins/denobeans/DenoExecutable.java:115-123 | statements without `"; "` joined by `"; "` are split back into the same statements' tokens when the last statement is not empty |
| Deno.ExampleFlagTokens | src/main/java/io/github/chris2011/netbeans/plugins/denobeans/DenoExecutable.java:115-123 | `-a 1; -b two` gives the tokens `-a`, `1`, `-b`, `two` |
| Deno.ExampleDefaultParams | src/main/java/io/github/chris2011/netbeans/plugins/denobeans/DenoExecutable.java:112-137 | with those flags and `/tmp/in.ts` the default variant gives `["-a","1","-b","two","/tmp/in.ts"]` |
| Deno.ExampleMacParams | src/main/java/io/github/chris2011/netbeans/plugins/denobeans/DenoExecutable.java:153-163 | with the same inputs the macOS variant gives one line of the six quoted words, the tool path first |
| Deno.ExampleWindowsPath | src/main/java/io/github/chris2011/netbeans/plugins/denobeans/DenoExecutable.java:126 | `C:\proj\in.ts` becomes `C:/proj/in.ts` |
| Deno.ExampleEmptyFlags | src/main/java/io/github/chris2011/netbeans/plugins/denobeans/DenoExecutable.java:115-126 | empty flags with `C:\proj\in.ts` give exactly `["C:/proj/in.ts"]`, with no leading empty token |
| Installer.GetDefault | src/main/java/io/github/chris2011/netbeans/plugins/denobeans/InstallerExecutable.java:14-40 | the installer stores `/deno.exe` on Windows and `/deno` elsewhere and is the macOS variant exactly on macOS |
| Installer.Command | src/main/java/io/github/chris2011/netbeans/plugins/denobeans/InstallerExecutable.java:42-44 | the installer's command is its stored path, or `/bin/bash -lc` for the macOS variant |
| Installer.Generate | src/main/java/io/github/chris2011/netbeans/plugins/denobeans/InstallerExecutable.java:46-64 | needs a caller off the dispatch thread; runs the command with no parameters and no working directory |
| Installer.MacInstallerIgnoresPath | src/main/java/io/github/chris2011/netbeans/plugins/denobeans/InstallerExecutable.java:83-98 | on macOS the installer's invocation is the same whatever path is stored, because parameters are not re-quoted |
| Installer.SameCommandAsGenerator | src/main/java/io/github/chris2011/netbeans/plugins/denobeans/InstallerExecutable.java:14-44 | on every system the installer and the generator resolve to the same command |

## Left out

- Process spawning, `ExternalExecutable`, `ExecutionDescriptor` and the returned `Future<Integer>` are not modelled. These belong to a NetBeans library that is not part of this model. A launch stops at the `Invocation` record. The descriptor settings (suspended display, line-based output, options path, `noOutput`) and the display titles are not modelled.
- The post-execution `refresh` of the project directory is not modelled. It is a side effect on the file system.
- How `ExternalExecutable` turns the command string `/bin/bash -lc` into a program and its arguments is not modelled, because that library is not part of this model.
- Host system detection (`Utilities.isWindows`, `Utilities.isMac`) is not modelled: the system is a parameter.
- `File.getAbsolutePath`, `FileUtil.toFile` and `FileUtils.TMP_DIR` are not modelled: the input path, the project root and the temporary directory are strings given by the caller. The project root is absent when it cannot be resolved. In the source this fails the `workDir != null` assertion, or passes a null directory when assertions are disabled.
- The `assert task != null` checks after launching are not modelled, since there is no task.
- The dispatch-thread and non-null-project assertions of `generate` are `requires` clauses, not modelled failures.
- StringUtils.Implode: `Parameters.notNull` needs no check here, because Dafny values cannot be null. A `null` element of the collection, which `StringBuilder.append` writes as `null`, cannot occur either.
- Deno.GenerateParams: `compilerFlags` and the input file are non-null strings; the `NullPointerException` a null one raises in `getGenerateParams` is not modelled.
- Java strings are sequences of UTF-16 code units, while a Dafny `char` is a Unicode scalar value, so a lone surrogate cannot be represented. No character the source compares against (`' '`, `;`, `\`, `"`) is a surrogate.
- StringUtils.Explode: an empty delimiter is excluded by a `requires` clause, so the `IllegalArgumentException` from `Parameters.notEmpty` is not modelled.
- Deno.ExampleMacParams: the expected line is written as `Quote("/usr/local/bin/deno") + " " + Quote("-a") + …` rather than as one string literal. `Quote(x)` is `"` + x + `"`, so the value is the same.
- JavaString.Split handles only literal delimiters. Those are the only patterns the source passes (`"; "`, `" "`, and `Pattern.quote`), so general regular expressions are not modelled.

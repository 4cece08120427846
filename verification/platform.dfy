/**
  What both launchers share: the host operating system (given by the caller,
  never detected), the executable variant chosen from it, the name of the
  Deno binary, the login-shell command used on macOS, and the record of one
  process invocation handed to the process layer.
 */
module Platform {
  import opened Wrappers
  import opened JavaString

  datatype Os = Windows | Mac | Other

  /** `Default` runs the tool directly; `MacWrapped` goes through a login shell. */
  datatype Variant = Default | MacWrapped

  /** The fixed login-shell command the macOS variant runs instead of the tool. */
  const BashCommand: string := "/bin/bash -lc"

  /** `DENO_EXECUTABLE_NAME`, fixed once from the host system: `/deno`, with `.exe` exactly on Windows. */
  function ExecutableName(os: Os): (r: string)
    ensures "/deno" <= r
    ensures EndsWith(r, ".exe") <==> os == Windows
  {
    if os == Windows then "/deno.exe" else "/deno"
  }

  /** `createExecutable`'s choice of class: the shell-wrapped one exactly on macOS. */
  function VariantFor(os: Os): (v: Variant)
    ensures v == MacWrapped <==> os == Mac
  {
    if os == Mac then MacWrapped else Default
  }

  /** `getCommand` of either class: the tool path itself, or the login shell on macOS. */
  function CommandFor(variant: Variant, path: string): (r: string)
    ensures variant == Default ==> r == path
    ensures variant == MacWrapped ==> r == BashCommand
  {
    match variant
    case Default => path
    case MacWrapped => BashCommand
  }

  /**
    One process launch as handed to the process layer: the command, the extra
    parameters after it, and the working directory (`None` when none is set).
   */
  datatype Invocation = Invocation(command: string, args: seq<string>, workDir: Option<string>)
}

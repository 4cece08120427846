/**
  The installer launcher (`InstallerExecutable`): it resolves the command the
  same way as the generator but passes no parameters and sets no working
  directory. Its macOS variant does not re-quote parameters into a shell line.
 */
module Installer {
  import opened Wrappers
  import opened Platform
  import Deno

  datatype InstallerExecutable = InstallerExecutable(path: string, variant: Variant)

  /** `getDefault`/`createExecutable`: the stored path is the executable name itself. */
  function GetDefault(os: Os): (e: InstallerExecutable)
    ensures e.path == (if os == Windows then "/deno.exe" else "/deno")
    ensures e.variant == MacWrapped <==> os == Mac
  {
    InstallerExecutable(ExecutableName(os), VariantFor(os))
  }

  /** `getCommand`: the stored path, or the login shell for the macOS variant. */
  function Command(e: InstallerExecutable): (r: string)
    ensures e.variant == Default ==> r == e.path
    ensures e.variant == MacWrapped ==> r == "/bin/bash -lc"
  {
    CommandFor(e.variant, e.path)
  }

  /**
    `generate`: must not be called from the event-dispatch thread; runs the
    command alone, with no parameters and no working directory.
   */
  function Generate(e: InstallerExecutable, onDispatchThread: bool): (inv: Invocation)
    requires !onDispatchThread
    ensures inv.args == [] && inv.workDir == None
    ensures e.variant == Default ==> inv.command == e.path
    ensures e.variant == MacWrapped ==> inv.command == "/bin/bash -lc"
  {
    Invocation(Command(e), [], None)
  }

  /**
    On macOS the installer's invocation is the same whatever the stored path:
    the tool path never reaches the launched process.
   */
  lemma MacInstallerIgnoresPath(e1: InstallerExecutable, e2: InstallerExecutable)
    requires e1.variant == MacWrapped && e2.variant == MacWrapped
    ensures Generate(e1, false) == Generate(e2, false)
  {
  }

  /** The installer and the generator resolve to the same command on every system. */
  lemma SameCommandAsGenerator(os: Os, project: Option<Deno.Project>)
    ensures Command(GetDefault(os)) == Deno.Command(Deno.GetDefault(os, project))
  {
  }
}

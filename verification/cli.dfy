/**
 `main()`: build the orchestrator, then either list the installed
 applications (`--installed-apps`) or uninstall the names listed in a file
 (`--uninstall <path>`). The machine the program runs on is an input: the
 two registry keys' product values, the enumeration command's output and the
 files, each given as its lines.
 */
module Cli {
  import opened Wrappers
  import opened Registry
  import opened WmicOutput
  import opened Uninstaller

  /** The parsed command line. */
  datatype Args = Args(installedApps: bool, uninstall: Option<string>)

  /** What the program reads from the machine. */
  datatype Machine = Machine(
    userProducts: seq<RegistryValue>,
    classesProducts: seq<RegistryValue>,
    wmicOutput: string,
    files: map<string, seq<string>>)

  /** How the process ends: with an exit code, with the construction's
      abort, or with the uncaught `FileNotFoundError` of `open` on a missing
      uninstall list. */
  datatype Exit = Exited(code: int) | Crashed(abort: Abort) | FileNotFound(path: string)

  /** Everything the run does that is visible outside. */
  datatype Outcome = Outcome(exit: Exit, printed: seq<string>, commands: seq<string>, warnings: seq<Warning>)

  /** `if args.uninstall:` — an absent or empty path asks for nothing. */
  predicate UninstallRequested(args: Args) {
    args.uninstall.Some? && args.uninstall.value != ""
  }

  /** `main()`. Construction comes first and a failure there ends the run
      with nothing listed and nothing uninstalled. `--installed-apps` prints
      the enumerated names and returns 0 before any uninstall. Otherwise a
      requested list is read whole (a missing file raises) and then each name
      goes through the gate in file order; the exit code is 0 whatever the
      per-name outcomes. */
  method Execute(args: Args, machine: Machine) returns (outcome: Outcome)
    ensures var c := Construct(machine.userProducts, machine.classesProducts);
      && (c.Failure? ==> outcome == Outcome(Crashed(c.error), [], [], []))
      && (c.Success? && args.installedApps ==>
            && outcome.exit == Exited(0)
            && outcome.printed == ParseApplications(machine.wmicOutput)
            && outcome.commands == []
            && (forall k :: 0 <= k < |outcome.warnings| ==> outcome.warnings[k].NotInRegistry?)
            && (forall a :: multiset(outcome.warnings)[NotInRegistry(a)]
                  == if a in c.value.known then 0 else multiset(outcome.printed)[a]))
      && (c.Success? && !args.installedApps && !UninstallRequested(args) ==>
            outcome == Outcome(Exited(0), [], [], []))
      && (c.Success? && !args.installedApps && UninstallRequested(args)
          && args.uninstall.value !in machine.files ==>
            outcome == Outcome(FileNotFound(args.uninstall.value), [], [], []))
      && (c.Success? && !args.installedApps && UninstallRequested(args)
          && args.uninstall.value in machine.files ==>
            && outcome.exit == Exited(0)
            && outcome.printed == []
            && outcome.commands
               == UninstallPlan(c.value.known, ReadFromFile(machine.files[args.uninstall.value]))
            && (forall k :: 0 <= k < |outcome.warnings| ==> outcome.warnings[k].NotRecognized?)
            && (forall a :: multiset(outcome.warnings)[NotRecognized(a)]
                  == if a in c.value.known then 0
                     else multiset(ReadFromFile(machine.files[args.uninstall.value]))[a]))
  {
    var constructed := Construct(machine.userProducts, machine.classesProducts);
    if constructed.Failure? {
      return Outcome(Crashed(constructed.error), [], [], []);
    }
    var app := constructed.value;
    if args.installedApps {
      var installed, warnings := EnumerateInstalled(app, machine.wmicOutput);
      return Outcome(Exited(0), installed, [], warnings);
    }
    if UninstallRequested(args) {
      var path := args.uninstall.value;
      if path !in machine.files {
        return Outcome(FileNotFound(path), [], [], []);
      }
      var requested := ReadFromFile(machine.files[path]);
      var commands, warnings := UninstallAll(app, requested);
      return Outcome(Exited(0), [], commands, warnings);
    }
    return Outcome(Exited(0), [], [], []);
  }
}

/**
 `WinUninstallApplication`: the known-application set built from the
 registry, the enumeration that cross-checks the installed list against it,
 the uninstall list read from a file, and the uninstall gate.

 Shell commands are not run: an operation returns the command it would
 issue, and the warnings it would log, for its caller to collect.
 */
module Uninstaller {
  import opened Wrappers
  import opened StrStrip
  import opened PercentFormat
  import opened Registry
  import opened WmicOutput

  /** The uninstall command template; `{0}` is replaced by the name. */
  const UninstallTemplate: string := "wmic product where name=\"{0}\" call uninstall"
  const UninstallPrefix: string := "wmic product where name=\""
  const UninstallSuffix: string := "\" call uninstall"

  lemma UninstallTemplateParts()
    ensures UninstallTemplate == UninstallPrefix + "{0}" + UninstallSuffix
  {
  }

  /** `UninstallTemplate.format(app)`: the name in place of `{0}`, verbatim. */
  function UninstallCommand(app: string): (cmd: string)
    ensures |cmd| == |UninstallPrefix| + |app| + |UninstallSuffix|
    ensures cmd[..|UninstallPrefix|] == UninstallPrefix
    ensures cmd[|cmd| - |UninstallSuffix|..] == UninstallSuffix
    ensures cmd[|UninstallPrefix|..|cmd| - |UninstallSuffix|] == app
  {
    UninstallPrefix + app + UninstallSuffix
  }

  /** The name an uninstall command targets, if it is one. */
  function CommandTarget(cmd: string): Option<string> {
    var n := |UninstallPrefix| + |UninstallSuffix|;
    if |cmd| >= n
       && cmd[..|UninstallPrefix|] == UninstallPrefix
       && cmd[|cmd| - |UninstallSuffix|..] == UninstallSuffix
    then Some(cmd[|UninstallPrefix|..|cmd| - |UninstallSuffix|])
    else None
  }

  /** Every uninstall command names its application back. */
  lemma CommandTargetInverse(app: string)
    ensures CommandTarget(UninstallCommand(app)) == Some(app)
  {
    var cmd := UninstallCommand(app);
    assert cmd[|UninstallPrefix|..|cmd| - |UninstallSuffix|] == app;
  }

  /** Different names give different commands. */
  lemma UninstallCommandInjective(a: string, b: string)
    requires UninstallCommand(a) == UninstallCommand(b)
    ensures a == b
  {
    CommandTargetInverse(a);
    CommandTargetInverse(b);
  }

  /** What the program logs as a warning, by cause. */
  datatype Warning =
    | NotInRegistry(app: string)   // an enumerated name that is not known
    | NotRecognized(app: string)   // a requested name that is not known

  /** An instance: the set of known application names, fixed at construction. */
  datatype Orchestrator = Orchestrator(known: set<string>)

  /** Some subkey's `ProductName` has `name` as its first component. */
  ghost predicate NamedIn(products: seq<RegistryValue>, name: string) {
    exists i :: 0 <= i < |products| && products[i].data == name
  }

  /** `WinUninstallApplication()`: the known set is the union of the product
      names under the two installer keys, duplicates removed. Construction
      fails, by an uncaught `TypeError`, when either key has no subkeys; the
      current-user key is read first. */
  function Construct(userProducts: seq<RegistryValue>, classesProducts: seq<RegistryValue>): (r: Result<Orchestrator, Abort>)
    ensures r.Success? <==> |userProducts| > 0 && |classesProducts| > 0
    ensures r.Failure? ==> r.error == Raised(NotEnoughArguments)
    ensures r.Success? ==> forall a :: a in r.value.known <==> NamedIn(userProducts, a) || NamedIn(classesProducts, a)
  {
    match ReadRegistryApplications(CurrentUserProducts, userProducts)
    case Failure(e) => Failure(e)
    case Success(fromUser) =>
      match ReadRegistryApplications(ClassesRootProducts, classesProducts)
      case Failure(e) => Failure(e)
      case Success(fromClasses) =>
        var known := (set a | a in fromUser) + (set a | a in fromClasses);
        assert forall a :: a in fromUser <==> NamedIn(userProducts, a) by {
          forall a ensures a in fromUser <==> NamedIn(userProducts, a) {
            if a in fromUser {
              var i :| 0 <= i < |fromUser| && fromUser[i] == a;
              assert userProducts[i].data == a;
            }
          }
        }
        assert forall a :: a in fromClasses <==> NamedIn(classesProducts, a) by {
          forall a ensures a in fromClasses <==> NamedIn(classesProducts, a) {
            if a in fromClasses {
              var i :| 0 <= i < |fromClasses| && fromClasses[i] == a;
              assert classesProducts[i].data == a;
            }
          }
        }
        Success(Orchestrator(known))
  }

  /** Which key a name came from does not matter: swapping the two keys'
      contents gives the same known set. */
  lemma KnownSetSymmetric(userProducts: seq<RegistryValue>, classesProducts: seq<RegistryValue>)
    requires |userProducts| > 0 && |classesProducts| > 0
    ensures Construct(userProducts, classesProducts).value.known
         == Construct(classesProducts, userProducts).value.known
  {
  }

  /** A product listed again, under either key, adds nothing to the known set. */
  lemma KnownSetIgnoresRepeats(userProducts: seq<RegistryValue>, classesProducts: seq<RegistryValue>, v: RegistryValue)
    requires |userProducts| > 0 && |classesProducts| > 0
    requires v.data in Construct(userProducts, classesProducts).value.known
    ensures Construct(userProducts + [v], classesProducts).value.known
         == Construct(userProducts, classesProducts).value.known
  {
    var extended := userProducts + [v];
    forall a ensures NamedIn(extended, a) <==> NamedIn(userProducts, a) || a == v.data {
      if NamedIn(extended, a) {
        var i :| 0 <= i < |extended| && extended[i].data == a;
        if i < |userProducts| { assert userProducts[i].data == a; }
      }
      if a == v.data {
        assert extended[|userProducts|].data == a;
      }
      if NamedIn(userProducts, a) {
        var i :| 0 <= i < |userProducts| && userProducts[i].data == a;
        assert extended[i].data == a;
      }
    }
  }

  // ---------------------------------------------------------------------------
  // Enumeration

  /** `enumerate_installed_applications()`: every parsed name, unfiltered,
      with the warnings of `CrossCheck`. */
  method EnumerateInstalled(o: Orchestrator, wmicOutput: string) returns (apps: seq<string>, warnings: seq<Warning>)
    ensures apps == ParseApplications(wmicOutput)
    ensures forall k :: 0 <= k < |warnings| ==> warnings[k].NotInRegistry?
    ensures forall a :: multiset(warnings)[NotInRegistry(a)] == if a in o.known then 0 else multiset(apps)[a]
  {
    apps := ParseApplications(wmicOutput);
    warnings := CrossCheck(o, apps);
  }

  /** The loop over the enumerated names: one warning per occurrence of a
      name that is not known, and no other warning. */
  method CrossCheck(o: Orchestrator, apps: seq<string>) returns (warnings: seq<Warning>)
    ensures forall k :: 0 <= k < |warnings| ==> warnings[k].NotInRegistry?
    ensures forall a :: multiset(warnings)[NotInRegistry(a)] == if a in o.known then 0 else multiset(apps)[a]
  {
    warnings := [];
    var i := 0;
    while i < |apps|
      invariant 0 <= i <= |apps|
      invariant forall k :: 0 <= k < |warnings| ==> warnings[k].NotInRegistry?
      invariant forall a :: multiset(warnings)[NotInRegistry(a)] == if a in o.known then 0 else multiset(apps[..i])[a]
    {
      assert apps[..i + 1] == apps[..i] + [apps[i]];
      if apps[i] !in o.known {
        warnings := warnings + [NotInRegistry(apps[i])];
      }
      i := i + 1;
    }
    assert apps[..i] == apps;
  }

  // ---------------------------------------------------------------------------
  // The uninstall list and the uninstall gate

  /** `read_from_file(name)` on a file whose lines are `lines`: each line
      stripped, in file order, duplicates and unknown names kept. */
  function ReadFromFile(lines: seq<string>): (apps: seq<string>)
    ensures |apps| == |lines|
    ensures forall i :: 0 <= i < |lines| ==> apps[i] == Strip(lines[i])
  {
    StripEach(lines)
  }

  /** Reading is line by line: the list of a concatenation of files is the
      concatenation of their lists. */
  lemma ReadFromFileAppend(lines: seq<string>, more: seq<string>)
    ensures ReadFromFile(lines + more) == ReadFromFile(lines) + ReadFromFile(more)
  {
  }

  /** The names read are trimmed, so reading them again changes nothing. */
  lemma ReadFromFileIdempotent(lines: seq<string>)
    ensures ReadFromFile(ReadFromFile(lines)) == ReadFromFile(lines)
  {
    forall i | 0 <= i < |lines| ensures Strip(Strip(lines[i])) == Strip(lines[i]) {
      StripIdempotent(lines[i]);
    }
  }

  /** The file `"  Foo  \nBar\n"`, whose lines keep their line feeds. */
  lemma ReadFromFileExample()
    ensures ReadFromFile(["  Foo  \n", "Bar\n"]) == ["Foo", "Bar"]
  {
    var lines := ["  Foo  \n", "Bar\n"];
    var apps := ReadFromFile(lines);
    ListOfTwo(apps);
    assert apps[0] == "Foo" by {
      assert apps[0] == Strip(lines[0]);
      StripFooLine();
    }
    assert apps[1] == "Bar" by {
      assert apps[1] == Strip(lines[1]);
      StripBarLine();
    }
  }

  lemma StripFooLine()
    ensures Strip("  Foo  \n") == "Foo"
  {
    assert AllWhitespace("  ") by {
      assert "  "[0] == ' ' && "  "[1] == ' ';
    }
    assert AllWhitespace("  \n") by {
      assert "  \n"[0] == ' ' && "  \n"[1] == ' ' && "  \n"[2] == '\n';
    }
    assert IsTrimmed("Foo") by {
      assert "Foo"[0] == 'F' && "Foo"[2] == 'o';
    }
    assert "  " + "Foo" + "  \n" == "  Foo  \n";
    StripUnique("  ", "Foo", "  \n");
  }

  lemma StripBarLine()
    ensures Strip("Bar\n") == "Bar"
  {
    assert AllWhitespace("") && AllWhitespace("\n") by {
      assert "\n"[0] == '\n';
    }
    assert IsTrimmed("Bar") by {
      assert "Bar"[0] == 'B' && "Bar"[2] == 'r';
    }
    assert "" + "Bar" + "\n" == "Bar\n";
    StripUnique("", "Bar", "\n");
  }

  /** What `perform_uninstall(app)` does. */
  datatype UninstallStep =
    | Skipped(warning: Warning)   // warned, nothing run
    | Issued(command: string)     // the command run

  /** `perform_uninstall(app)`: exactly one command, naming `app`, when `app`
      is known; otherwise a warning and no command. */
  function PerformUninstall(o: Orchestrator, app: string): (step: UninstallStep)
    ensures step.Issued? <==> app in o.known
    ensures step.Issued? ==> CommandTarget(step.command) == Some(app)
    ensures step.Skipped? ==> step.warning == NotRecognized(app)
  {
    if app !in o.known then
      Skipped(NotRecognized(app))
    else
      CommandTargetInverse(app);
      Issued(UninstallCommand(app))
  }

  /** Reference: the commands for the requested names that are known, in the
      order requested. */
  function UninstallPlan(known: set<string>, apps: seq<string>): seq<string>
    decreases |apps|
  {
    if |apps| == 0 then []
    else (if apps[0] in known then [UninstallCommand(apps[0])] else []) + UninstallPlan(known, apps[1..])
  }

  /** The plan of a concatenated request is the concatenation of the plans:
      commands follow the request order. */
  lemma {:induction false} UninstallPlanAppend(known: set<string>, xs: seq<string>, ys: seq<string>)
    ensures UninstallPlan(known, xs + ys) == UninstallPlan(known, xs) + UninstallPlan(known, ys)
    decreases |xs|
  {
    if |xs| > 0 {
      assert (xs + ys)[0] == xs[0];
      assert (xs + ys)[1..] == xs[1..] + ys;
      UninstallPlanAppend(known, xs[1..], ys);
    } else {
      assert xs + ys == ys;
    }
  }

  /** Each known name gets one command per time it is requested; an unknown
      name gets none, and no command names anything else. */
  lemma {:induction false} UninstallPlanCounts(known: set<string>, apps: seq<string>)
    ensures forall a :: multiset(UninstallPlan(known, apps))[UninstallCommand(a)]
                        == if a in known then multiset(apps)[a] else 0
    ensures forall c :: c in UninstallPlan(known, apps) ==>
              exists a :: a in known && a in apps && c == UninstallCommand(a)
    decreases |apps|
  {
    if |apps| > 0 {
      UninstallPlanCounts(known, apps[1..]);
      assert apps == [apps[0]] + apps[1..];
      forall a ensures multiset(UninstallPlan(known, apps))[UninstallCommand(a)]
                       == if a in known then multiset(apps)[a] else 0 {
        if UninstallCommand(a) == UninstallCommand(apps[0]) {
          UninstallCommandInjective(a, apps[0]);
        }
      }
    }
  }

  lemma UninstallPlanSingle(known: set<string>, app: string)
    ensures UninstallPlan(known, [app]) == if app in known then [UninstallCommand(app)] else []
  {
    assert [app][1..] == [];
  }

  /** A request that names nothing known issues nothing. */
  lemma {:induction false} UninstallPlanUnknown(known: set<string>, apps: seq<string>)
    requires forall i :: 0 <= i < |apps| ==> apps[i] !in known
    ensures UninstallPlan(known, apps) == []
    decreases |apps|
  {
    if |apps| > 0 {
      UninstallPlanUnknown(known, apps[1..]);
    }
  }

  /** `for app in apps: perform_uninstall(app)`: the plan's commands, and one
      warning per occurrence of an unknown name. */
  method UninstallAll(o: Orchestrator, apps: seq<string>) returns (commands: seq<string>, warnings: seq<Warning>)
    ensures commands == UninstallPlan(o.known, apps)
    ensures forall k :: 0 <= k < |warnings| ==> warnings[k].NotRecognized?
    ensures forall a :: multiset(warnings)[NotRecognized(a)] == if a in o.known then 0 else multiset(apps)[a]
  {
    commands := [];
    warnings := [];
    var i := 0;
    while i < |apps|
      invariant 0 <= i <= |apps|
      invariant commands == UninstallPlan(o.known, apps[..i])
      invariant forall k :: 0 <= k < |warnings| ==> warnings[k].NotRecognized?
      invariant forall a :: multiset(warnings)[NotRecognized(a)] == if a in o.known then 0 else multiset(apps[..i])[a]
    {
      var app := apps[i];
      assert apps[..i + 1] == apps[..i] + [app];
      assert UninstallPlan(o.known, apps[..i + 1])
          == commands + if app in o.known then [UninstallCommand(app)] else [] by {
        UninstallPlanAppend(o.known, apps[..i], [app]);
        UninstallPlanSingle(o.known, app);
      }
      match PerformUninstall(o, app) {
        case Issued(cmd) =>
          commands := commands + [cmd];
        case Skipped(w) =>
          warnings := warnings + [w];
      }
      i := i + 1;
    }
    assert apps[..i] == apps;
  }

  /** A list of two is the display of its elements. */
  lemma ListOfTwo(r: seq<string>)
    requires |r| == 2
    ensures r == [r[0], r[1]]
  {
  }
}

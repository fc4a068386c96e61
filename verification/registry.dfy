/**
 The registry side of `WinUninstallApplication`: the two installer-product
 keys it reads and the list of product names read from one of them.
 Registry access itself is an input: the `ProductName` values read under a
 key's subkeys are given, one per subkey, in enumeration order.
 */
module Registry {
  import opened Wrappers
  import opened PercentFormat

  /** A registry value as the reader returns it: a pair whose first
      component is the value's data and whose second is its type code. */
  datatype RegistryValue = RegistryValue(data: string, valueType: int)

  datatype RegistryKey = RegistryKey(hive: string, path: string)

  const CurrentUserProducts: RegistryKey :=
    RegistryKey("HKEY_CURRENT_USER", "Software\\Microsoft\\Installer\\Products")
  const ClassesRootProducts: RegistryKey :=
    RegistryKey("HKEY_CLASSES_ROOT", "Installer\\Products")

  /** The template of the error logged when a key has no subkeys. */
  const EmptyKeyTemplate: string := "%s\\%s is unexpectedly empty"

  /** The ways reading the registry stops the program without returning. */
  datatype Abort =
    | Raised(error: FormatError)    // an uncaught exception from `%` formatting
    | SystemExit(code: int)         // `sys.exit(code)`

  /** The empty-key template is the directive `%s`, a backslash, `%s` again
      and a literal tail. */
  lemma EmptyKeyTemplateParts()
    ensures EmptyKeyTemplate == "%s" + ("\\" + ("%s" + " is unexpectedly empty"))
  {
  }

  /** The empty-key message is formatted with the hive alone, `"..." % key_hive`,
      and the template wants two arguments: the formatting itself raises. */
  lemma EmptyKeyMessageRaises(hive: string)
    ensures Format(EmptyKeyTemplate, [hive]) == Failure(NotEnoughArguments)
  {
    EmptyKeyTemplateParts();
    FormatDirective("\\" + ("%s" + " is unexpectedly empty"), [hive]);
    FormatLiteral("\\", "%s" + " is unexpectedly empty", []);
    FormatDirective(" is unexpectedly empty", []);
  }

  /** Given both the hive and the path, the same template formats fine: the
      message names the full key. */
  lemma EmptyKeyMessageWithPath(hive: string, path: string)
    ensures Format(EmptyKeyTemplate, [hive, path]) == Success(hive + ("\\" + (path + " is unexpectedly empty")))
  {
    EmptyKeyTemplateParts();
    FormatKeyMessage(hive, path, " is unexpectedly empty");
  }

  /** `"%s\\%s<tail>" % (hive, path)` for a tail without directives. */
  lemma FormatKeyMessage(hive: string, path: string, tail: string)
    requires forall i :: 0 <= i < |tail| ==> tail[i] != '%'
    ensures Format("%s" + ("\\" + ("%s" + tail)), [hive, path]) == Success(hive + ("\\" + (path + tail)))
  {
    FormatPathAndTail(path, tail);
    FormatFirstArgument(hive, path, "\\" + ("%s" + tail), "\\" + (path + tail));
  }

  /** A leading `%s` takes the first of two arguments; the rest of the
      template is formatted with the second. */
  lemma FormatFirstArgument(first: string, second: string, rest: string, v: string)
    requires Format(rest, [second]) == Success(v)
    ensures Format("%s" + rest, [first, second]) == Success(first + v)
  {
    FormatDirective(rest, [first, second]);
    assert [first, second][1..] == [second];
  }

  lemma FormatPathAndTail(path: string, tail: string)
    requires forall i :: 0 <= i < |tail| ==> tail[i] != '%'
    ensures Format("\\" + ("%s" + tail), [path]) == Success("\\" + (path + tail))
  {
    FormatTail(path, tail);
    FormatLiteral("\\", "%s" + tail, [path]);
  }

  lemma FormatTail(path: string, tail: string)
    requires forall i :: 0 <= i < |tail| ==> tail[i] != '%'
    ensures Format("%s" + tail, [path]) == Success(path + tail)
  {
    FormatLiteral(tail, "", []);
    assert tail + "" == tail;
    FormatDirective(tail, [path]);
    assert [path][1..] == [];
  }

  /** The product names under `key`: the first component of each subkey's
      `ProductName`, in subkey order and with duplicates kept. A key without
      subkeys stops the program: building its error message raises. */
  function ReadRegistryApplications(key: RegistryKey, products: seq<RegistryValue>): (r: Result<seq<string>, Abort>)
    ensures r.Success? <==> |products| > 0
    ensures r.Failure? ==> r.error == Raised(NotEnoughArguments)
    ensures r.Success? ==> |r.value| == |products|
    ensures r.Success? ==> forall i :: 0 <= i < |products| ==> r.value[i] == products[i].data
  {
    if |products| == 0 then
      EmptyKeyMessageRaises(key.hive);
      match Format(EmptyKeyTemplate, [key.hive])
      case Failure(e) => Failure(Raised(e))
      case Success(_) => Failure(SystemExit(0))
    else
      Success(seq(|products|, i requires 0 <= i < |products| => products[i].data))
  }
}

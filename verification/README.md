# WindowsMassUninstall, modelled in Dafny

`win_mass_uninstall.py` lists the installed Windows applications and
uninstalls the ones named in a text file. Its class `WinUninstallApplication`
builds a set of known application names from two registry keys
(`HKEY_CURRENT_USER\Software\Microsoft\Installer\Products` and
`HKEY_CLASSES_ROOT\Installer\Products`), parses the output of
`wmic product get name` into a sorted list of installed names (warning about
names that are not known), reads an uninstall list from a file, and runs
`wmic product where name="<app>" call uninstall` for each listed name that
is known. `main()` dispatches on `--installed-apps` and `--uninstall <path>`.

The model keeps that logic and turns everything outside it into inputs and
outputs: the registry values, the enumeration output and the files are
parameters; the commands that would be run, the names that would be printed
and the warnings that would be logged are results.

| file | module | models |
|---|---|---|
| `wrappers.dfy` | `Wrappers` | `Option` / `Result` |
| `str_strip.dfy` | `StrStrip` | `str.strip`, `rstrip`, `lstrip` with Python's exact whitespace set |
| `str_split.dfy` | `StrSplit` | `str.split(sep)` and `sep.join` |
| `ordinal_sort.dfy` | `OrdinalSort` | Python string comparison and `list.sort()` |
| `percent_format.dfy` | `PercentFormat` | `template % args` for `%s` and `%%` |
| `registry.dfy` | `Registry` | `__read_registry_applications` |
| `wmic_output.dfy` | `WmicOutput` | `__read_file_applications` |
| `uninstaller.dfy` | `Uninstaller` | `__init__`, `enumerate_installed_applications`, `read_from_file`, `perform_uninstall` |
| `cli.dfy` | `Cli` | `main` |

Points where the code decides the behaviour:

- The enumeration parser tests `len(app)` before it strips, so a block
  made only of spaces is kept and listed as `""`
  (`WmicOutput.ParseBlankRecord`, `WmicOutput.EmptyNameFromBlankRecord`).
- The first block that survives the length test is dropped as the header,
  whatever it holds.
- A registry key without subkeys does not end the program through
  `sys.exit(0)`. The error message is built as `"%s\\%s ..." % key_hive`,
  one argument for two `%s`, so the formatting raises `TypeError` first and
  the process ends with an uncaught exception. The model derives that from a
  model of `%` formatting (`Registry.EmptyKeyMessageRaises`) and construction
  fails with `Raised(NotEnoughArguments)`.
- `if args.uninstall:` treats an empty path like an absent one.
- The sorted order is unique for strings, so any sorting algorithm gives the
  same list as the model's insertion sort (`OrdinalSort.SortedUnique`).

## Model

| member | source | states |
|---|---|---|
| `StrStrip.RStrip` | win_mass_uninstall.py:96 | `rstrip()` returns a prefix, everything after it is whitespace, and it does not end in whitespace; whitespace is CPython's `str.isspace` set, written out in `StrStrip.IsWhitespace` |
| `StrStrip.Strip` | win_mass_uninstall.py:97 | `strip()` returns a trimmed string that sits in the input where the right strip ends, with only whitespace around it |
| `StrStrip.StripSurrounds` | win_mass_uninstall.py:97 | the existential form of `Strip`'s second ensures: the stripped string is an infix of the input at some offset, and everything outside it is whitespace |
| `StrStrip.StripEach` | win_mass_uninstall.py:97 | the comprehension strips every block: one result per block, in order, each the stripped block |
| `StrStrip.StripUnique` | win_mass_uninstall.py:97 | for whitespace around a trimmed non-empty core, strip returns exactly the core |
| `StrStrip.StripEmptyIff` | win_mass_uninstall.py:97 | a block strips to `""` exactly when it is all whitespace |
| `StrStrip.StripIdempotent` | win_mass_uninstall.py:83 | stripping twice is stripping once |
| `StrSplit.Split` | win_mass_uninstall.py:96 | `split("\n\n")` has at least one part, the first part is a prefix, and no part contains the separator |
| `StrSplit.SplitCutsLeftmost` | win_mass_uninstall.py:96 | every part but the last ends at the leftmost separator after it: no occurrence of the separator starts inside the part |
| `StrSplit.JoinSplit` | win_mass_uninstall.py:96 | rejoining the parts with the separator restores the input |
| `StrSplit.SplitJoin` | win_mass_uninstall.py:96 | splitting a join of separable parts returns the parts |
| `OrdinalSort.Leq` | win_mass_uninstall.py:100 | Python's `<=` on `str`, compared code point by code point; its meaning is stated by `LeqIsLexicographic` |
| `OrdinalSort.LeqIsLexicographic` | win_mass_uninstall.py:100 | the comparison is code-point lexicographic order with a proper prefix first |
| `OrdinalSort.LeqTransitive` | win_mass_uninstall.py:100 | the string order is transitive |
| `OrdinalSort.LeqAntisymmetric` | win_mass_uninstall.py:100 | strings that are mutually `<=` are equal |
| `OrdinalSort.Sort` | win_mass_uninstall.py:100 | the result is sorted and a permutation of the input |
| `OrdinalSort.SortedUnique` | win_mass_uninstall.py:100 | two sorted permutations of the same names are equal |
| `OrdinalSort.SortPermutationInvariant` | win_mass_uninstall.py:100 | the sorted list depends only on which names occur how often, not on the order the enumeration gives them in |
| `PercentFormat.Format` | win_mass_uninstall.py:111 | a well-formed template succeeds exactly with one argument per `%s`, and raises "not enough arguments" with fewer |
| `Registry.EmptyKeyMessageRaises` | win_mass_uninstall.py:110-112 | formatting the empty-key message with the hive alone raises before `sys.exit` |
| `Registry.EmptyKeyMessageWithPath` | win_mass_uninstall.py:111 | the same template with hive and path gives `hive\path is unexpectedly empty` |
| `Registry.ReadRegistryApplications` | win_mass_uninstall.py:105-120 | fails exactly for a key without subkeys, with the format error; otherwise the first component of each `ProductName`, in subkey order |
| `WmicOutput.Blocks` | win_mass_uninstall.py:96 | right-strip then split at blank lines: there is always at least one block, and exactly `[""]` when the output is empty or all whitespace |
| `WmicOutput.BlocksRejoin` | win_mass_uninstall.py:96 | the blocks rejoin to the right-stripped output and contain no blank line |
| `WmicOutput.NonEmpty` | win_mass_uninstall.py:97 | the `len(app)` filter: every kept block has non-zero length and there are never more kept blocks than blocks |
| `WmicOutput.NonEmptyAppend` | win_mass_uninstall.py:97 | the filter keeps the blocks in their order: filtering a concatenation concatenates the filtered parts |
| `WmicOutput.HeaderIsFirstNonEmptyBlock` | win_mass_uninstall.py:97-99 | the record dropped as the header is the first block of non-zero length, and every block before it is empty |
| `WmicOutput.NonEmptyCounts` | win_mass_uninstall.py:97 | the filter keeps each non-empty block as often as it occurs and drops empty ones |
| `WmicOutput.Records` | win_mass_uninstall.py:96-97 | the blocks of non-zero length, header included: never more than the blocks, and none of them empty |
| `WmicOutput.Entries` | win_mass_uninstall.py:97-99 | the `[1:]` header drop after the strip: one fewer entries than records, none when there are no records |
| `WmicOutput.EntryIsStrippedRecord` | win_mass_uninstall.py:97-99 | entry i is the stripped record i + 1, so output order is kept and only the header is dropped |
| `WmicOutput.ParseApplications` | win_mass_uninstall.py:87-102 | the names are sorted, a permutation of the stripped records after the header, one fewer than the records (none when there are none) |
| `WmicOutput.ApplicationsAreTrimmed` | win_mass_uninstall.py:96-97 | every listed name is trimmed and has no blank line inside |
| `WmicOutput.EmptyNameFromBlankRecord` | win_mass_uninstall.py:97 | `""` is listed exactly when a record after the header is whitespace alone |
| `WmicOutput.BlankOutputHasNoApplications` | win_mass_uninstall.py:96-99 | an empty or all-whitespace output lists nothing |
| `WmicOutput.ParseRender` | win_mass_uninstall.py:94-100 | parsing a header and records separated and ended by blank lines returns the records sorted |
| `WmicOutput.BlankRecordListed` | win_mass_uninstall.py:97 | a whitespace-only record with no line feed, between a header and a name, is listed as `""` |
| `WmicOutput.ParseTwoNames` | win_mass_uninstall.py:96-100 | `"Name\n\nFoo\n\nBar\n\n"` parses to `["Bar", "Foo"]` |
| `WmicOutput.ParseBlankRecord` | win_mass_uninstall.py:97 | `"Name\n\n \n\nFoo"` parses to `["", "Foo"]` |
| `Uninstaller.UninstallCommand` | win_mass_uninstall.py:29 | the command is the template's prefix, then the name verbatim between prefix and suffix, then the template's suffix |
| `Uninstaller.CommandTargetInverse` | win_mass_uninstall.py:69 | the name can be read back from its uninstall command |
| `Uninstaller.UninstallCommandInjective` | win_mass_uninstall.py:69 | different names give different commands |
| `Uninstaller.Construct` | win_mass_uninstall.py:31-46 | succeeds exactly when both keys have subkeys; the known set is exactly the names under either key |
| `Uninstaller.KnownSetSymmetric` | win_mass_uninstall.py:38-44 | exchanging the two keys' contents gives the same known set |
| `Uninstaller.KnownSetIgnoresRepeats` | win_mass_uninstall.py:38-46 | a repeated product name adds nothing to the known set |
| `Uninstaller.EnumerateInstalled` | win_mass_uninstall.py:49-58 | returns the parsed list unfiltered, with one warning per occurrence of an unknown name and no other warning |
| `Uninstaller.CrossCheck` | win_mass_uninstall.py:55-57 | the loop warns once per occurrence of an unknown name, never for a known one |
| `Uninstaller.ReadFromFile` | win_mass_uninstall.py:72-84 | one entry per line, in order, each the stripped line |
| `Uninstaller.ReadFromFileAppend` | win_mass_uninstall.py:80-83 | the list of concatenated lines is the concatenation of the lists |
| `Uninstaller.ReadFromFileIdempotent` | win_mass_uninstall.py:83 | reading an already read list changes nothing |
| `Uninstaller.ReadFromFileExample` | win_mass_uninstall.py:79-84 | the lines of `"  Foo  \nBar\n"` read as `["Foo", "Bar"]` |
| `Uninstaller.PerformUninstall` | win_mass_uninstall.py:60-69 | a command exactly when the name is known, and it targets that name; otherwise only a warning for that name |
| `Uninstaller.UninstallPlanAppend` | win_mass_uninstall.py:151-152 | commands follow the order of the list |
| `Uninstaller.UninstallPlanCounts` | win_mass_uninstall.py:151-152 | each known name gets one command per listing, unknown names none, and every command targets a listed known name |
| `Uninstaller.UninstallPlanUnknown` | win_mass_uninstall.py:65-67 | a list of unknown names issues no command |
| `Uninstaller.UninstallAll` | win_mass_uninstall.py:150-152 | issues exactly the plan's commands and one warning per occurrence of an unknown name |
| `Cli.Execute` | win_mass_uninstall.py:142-154 | a construction failure ends the run with nothing done; `--installed-apps` prints the parsed names, warns once per occurrence of an unknown one, issues no command and returns 0; otherwise the listed file's known names are uninstalled in file order, each occurrence of an unknown name is warned about, and the run returns 0; a missing file raises before any command |

## Left out

- Process and file I/O (`os.popen`, `os.system`, `open`, `readlines`): their results are inputs (`Machine`) and their effects are returned (`Outcome`). A file is given as its lines; splitting text into lines and newline translation are not modelled.
- `registry_helper` and `log_helper` are not part of this model. A `ProductName` read is the pair `RegistryValue(data, valueType)` and `product[0]` is `data`; a missing `ProductName` value is not modelled.
- Logging: the info messages and message texts are left out; warnings are kept as `Warning` values naming the application.
- `argparse`: the parsed arguments are the `Args` input.
- `print`: the printed names are returned as a list.
- The uninstall command's exit status: the source ignores it, and so does the model.
- `environment_value` and `system_utils.is_x64os`: unused by the core.
- `known_applications` is a list built from a set; only membership is used, so it is a `set`.
- Python strings may hold lone surrogates; Dafny characters are Unicode scalar values.
- `PercentFormat.Format`: covers only `%s` and `%%`, the directives the program uses.

# GoExec module-dispatch core, in Dafny

GoExec is a network scanner built around a registry of modules. Each module
has metadata (a unique name, a description and labels used as tags), a
factory, and an `Input` struct that says which command-line options it
takes. This project models the framework around the modules:

- validating the registry at start-up: names must be unique, exactly and
  under case folding;
- selecting modules by tag, collecting all tags, and finding a module by
  name;
- pre-scanning the command line (positional tags, the `-M` value) and
  choosing what `RunE` does;
- deriving flags from a module's input struct and binding flag values back
  to a fresh input;
- rendering `--options` help;
- running a module: expanding its targets, then calling `RunOnce` on each
  target until the first failure.

Go reflection is replaced by explicit values:

- `Shapes.Type` and `Shapes.Value` stand for a type tree and a value tree.
- The cobra flag set is a `map<string, Flag>` whose entries record their
  value and whether they were changed.
- Each registry entry records the type of its module's `Input` field, or
  `None` when the module has no such field.

Things outside the program are parameters: the file system (`open`), DNS and
IP parsing (`Resolver`), a module's per-target work (`runOnce`), and a
module's `Run` as seen by the runner (`run`). Go panics that the core can
trigger become `Err` values:

- pflag's "flag redefined" becomes `FlagRedefined`;
- reflect's `NumField` on a non-struct becomes `NonStructType`.

Go map iteration order is a nondeterministic choice (`:|`) in the loops that
depend on it. Which duplicate is reported, and in what order tags are listed,
are therefore stated as existence and set properties.

Files, one Dafny module each:

- `errors.dfy`: `Option`, `Result` and the error kinds.
- `text.dfy`: ASCII `ToLower`/`EqualFold`, `HasPrefix`, `TrimSpace` with Go's
  white-space set, and `Join`.
- `shapes.dfy`: types, values, leaves, zero values.
- `generic.dfy`: metadata, credentials, and the stop-at-first-failure
  contract.
- `targets.dfy`: target expansion and resolution.
- `smb.dfy` and `listshares.dfy`: the two share-listing module variants.
- `smbauth.dfy`: the authentication callback. See the finding below.
- `registry.dfy`: the registry.
- `validation.dfy`: start-up name validation.
- `tags.dfy`: tag filtering.
- `binder.dfy`: flag derivation and binding.
- `cli.dfy`: argument scanning, lookup, tag listing and dispatch.
- `help.dfy`: help rendering.
- `logging.dfy`: running a module.

Behaviours of the code that are easy to miss, modelled as written:

- The tag filter appends an entry once per matching label. It does not
  de-duplicate (`Tags.SelectedOncePerMatchingLabel`).
- Flag usage text is `"<help tag> (<type name>)"` even when the tag is
  empty; there is no generated fallback (`Binder.MakeFlag`). The help
  renderer likewise prints an empty tag as nothing
  (`Help.EmptyHelpNoFallback`).
- A host file's close error is never returned. `return outTargets,
  fileCloseErr` evaluates its results before the deferred close assigns
  `fileCloseErr`, and scanner errors are never checked
  (`Targets.GetTargets`).
- The runner never calls `Configure`. It stores the bound value straight
  into the `Input` field (`Logging.RunModuleWithLogging`).

## Model

| member | source | states |
|---|---|---|
| Validation.ValidateModules | internal/core/validation.go:9-36 | returns None iff the names are pairwise distinct after ToLower; every error is an exact or a case-insensitive duplicate; if any exact duplicate exists, the error is the exact kind, with a name whose count is its true occurrence count (> 1); a case-insensitive error comes only when no exact duplicate exists, and lists all variants of that lower-case form in registry order (more than one) |
| Validation.InitializeModules | internal/core/validation.go:39-44 | same verdict as ValidateModules: None iff case-insensitively distinct, every error one of the two duplicate kinds, with the same contents |
| Validation.Names | internal/core/validation.go:13-14 | the i-th name is the UniqueName of the i-th entry |
| Validation.CountMapCounts | internal/core/validation.go:13-19 | the `names` map built by the first loop holds each name's occurrence count; a missing name occurs nowhere |
| Validation.VariantMapVariants | internal/core/validation.go:13-19 | the `nameLowerMap` built by the first loop maps each lower-case form to the names with that form, in order; a missing form has none |
| Validation.VariantsMembers | internal/core/validation.go:15-18 | a name is among the variants of `l` iff it occurs and lower-cases to `l` |
| Validation.NoVariants | internal/core/validation.go:15-18 | a lower-case form that no name has collects no variants |
| Validation.CountPositive | internal/core/validation.go:17 | a name with a positive count occurs in the registry |
| Validation.CountAtMostVariants | internal/core/validation.go:17-18 | an exact duplicate is also a case-insensitive duplicate: count <= number of variants of its lower form |
| Validation.DistinctFewVariants | internal/core/validation.go:29-33 | case-insensitively distinct names give every lower form at most one variant |
| Validation.CollisionManyVariants | internal/core/validation.go:29-33 | two names at different positions with equal lower forms give that form at least two variants |
| Validation.DistinctIffFewVariants | internal/core/validation.go:29-35 | names are case-insensitively distinct iff no lower form has more than one variant |
| Validation.AllModulesAreValid | internal/core/moduleChooser.go:13-20 | the shipped one-entry registry validates |
| Tags.FilterModulesByTags | internal/core/tags.go:6-22 | the result is the registry itself for no tags; otherwise each entry in registry order, repeated once per label that EqualFold-matches some tag |
| Tags.Repeat | internal/core/tags.go:15 | n copies of the entry |
| Tags.RepeatMembers | internal/core/tags.go:15 | x is among n copies of e iff n > 0 and x == e |
| Tags.MatchCountPositive | internal/core/tags.go:12-19 | an entry is appended at least once iff one of its labels matches some tag |
| Tags.ExpandMembers | internal/core/tags.go:11-20 | an entry is in the result iff it is in the registry and has a label matching a tag; entries with no matching label never appear |
| Tags.FilteredMembers | internal/core/tags.go:7-20 | with at least one tag, the filter keeps exactly the entries with a matching label |
| Tags.ExpandAppend | internal/core/tags.go:11-20 | filtering a registry in two parts gives the two results concatenated |
| Tags.ExpandBlocks | internal/core/tags.go:11-20 | the result is the result before entry i, then MatchCount copies of entry i, then the result after it |
| Tags.ExpandOrigins | internal/core/tags.go:11-20 | every result element is a copy of a registry entry, and the entries copied come in nondecreasing registry order |
| Tags.SelectedOncePerMatchingLabel | internal/core/tags.go:12-19 | labels ["SMB","smb"] with tag "smb" select the entry twice |
| Tags.SmbTagSelectsRegistry | internal/core/tags.go:6-22 | the tag "smb" selects the shipped registry exactly |
| Cli.ExtractTags | internal/core/flags.go:147-170 | the tags are TagsOf(args): the arguments not starting with "-", in order, skipping the one after -M/--module/-t/--tags |
| Cli.TagsAreSubsequence | internal/core/flags.go:147-170 | the extracted tags are a subsequence of the arguments |
| Cli.TagsAreNotFlags | internal/core/flags.go:158-167 | no extracted tag starts with "-", and each comes from the arguments |
| Cli.PlainArgumentsAreTags | internal/core/flags.go:151-168 | when no argument starts with "-", every argument is a tag |
| Cli.TagsExample | internal/core/flags.go:151-168 | the value after -M is skipped; a trailing --module skips nothing |
| Cli.ScanModuleFlag | internal/core/flags.go:122-129 | the loop over os.Args[1:] with its `i+1 < len(os.Args)-1` guard yields ModuleFlagValue of os.Args[1:] |
| Cli.ModuleFlagValueIsFirst | internal/core/flags.go:122-129 | the first -M/--module decides: the name is the next argument, or "" when the flag is last; later occurrences are ignored |
| Cli.ModuleFlagValueAbsent | internal/core/flags.go:122-129 | without -M/--module the name is "" |
| Cli.FindFrom | internal/core/flags.go:190-195 | the first index at or after `from` whose lower-cased name matches, or None when none does |
| Cli.FindModuleByName | internal/core/flags.go:188-196 | the first entry whose lower-cased UniqueName equals the lower-cased query; None iff there is no such entry |
| Cli.FindListSharesExample | internal/core/flags.go:188-196 | "List-Shares" and "list-shares" find the shipped module; "list-share" finds nothing |
| Cli.AddModuleFlagsIfRequested | internal/core/flags.go:117-144 | with no -M value, or no such module among the tag-filtered entries, the flag set is unchanged; otherwise it is what addFlagsFromStruct gives for that module's input type |
| Cli.LowerSetMembers | internal/core/flags.go:176-177 | x is among one entry's lower-cased labels iff some label lower-cases to x |
| Cli.LabelSetMembers | internal/core/flags.go:175-179 | x is in the tag set iff some label of some entry lower-cases to x |
| Cli.CollectAllTags | internal/core/flags.go:173-185 | the result holds each lower-cased label once, without duplicates, and nothing else, in an unspecified order |
| Cli.RegistryTags | internal/core/flags.go:173-185 | the shipped registry's tag set is {"smb"} |
| Cli.Dispatch | internal/core/flags.go:25-99 | priority: help iff no tags and no -T/-L/-M; -M without tags is an error; -T wins over -L, and -L over -M; -M runs or shows the first matching module, or reports "not found"; tags with no action are an error |
| Cli.ModuleArgsExample | internal/core/flags.go:133 | in the raw arguments `-M list-shares smb` only "smb" is a tag |
| Cli.SmbTagExample | internal/core/flags.go:31 | the positional argument `smb` gives exactly the tag "smb" |
| Cli.DispatchExample | internal/core/flags.go:41-91 | with `-M list-shares` and the positional argument `smb`, RunE runs the shipped module, with --options shows its help; `-M list-shares` with no positional argument is an error |
| Binder.GetString | internal/core/flags.go:273-277 | the string getter succeeds iff the flag exists and is a string flag; on failure it returns "" |
| Binder.GetBool | internal/core/flags.go:279-283 | the bool getter succeeds iff the flag exists and is a bool flag; on failure it returns false |
| Binder.LastWinsAppend | internal/core/flags.go:217-223 | flattening two runs of leaves is the second map copied over the first |
| Binder.LastWinsIsLastOccurrence | internal/core/flags.go:210-226 | a name is a key iff some leaf has it, and its value is the last leaf with that name |
| Binder.FlattenStructFields | internal/core/flags.go:210-226 | nested structs are recursed into without an entry of their own; each leaf is keyed by its bare name, and on a collision the last leaf in depth-first order wins |
| Binder.MakeFlag | internal/core/flags.go:235-242 | string leaves get a string flag defaulting to "" and bool leaves a bool flag defaulting to false, both with usage "<help> (<type name>)"; every other kind gets no flag |
| Binder.FlagsForStep | internal/core/flags.go:234-244 | registering one more field changes the flag map only by that field's flag, if it has one |
| Binder.UpdateUnion | internal/core/flags.go:238-241 | adding a flag to the merged set equals adding it to the new part |
| Binder.DerivedFlagsAreLastLeaves | internal/core/flags.go:229-245 | a flag is derived for name n iff some string or bool leaf is the last leaf named n, and its usage and default come from that leaf |
| Binder.AddFlagsFromStruct | internal/core/flags.go:229-245 | a nil type adds nothing; a non-struct type panics; without a name clash the result is the old flags plus the derived ones; a clash with an existing flag reports that flag as redefined |
| Binder.BindLeaf | internal/core/flags.go:267-287 | an unchanged leaf keeps its value, and the result still has the leaf's type |
| Binder.SetLeaf | internal/core/flags.go:267-287 | the switch on the leaf's kind computes BindLeaf, and warns on a failed read or an unknown kind |
| Binder.SetStructFromFlags | internal/core/flags.go:248-289 | the bound value is Bind(v, t, flags), and the warnings are those of the leaves in order |
| Binder.WarningsOfAppend | internal/core/flags.go:248-289 | the warnings of two runs of leaves are concatenated |
| Binder.BindLeaves | internal/core/flags.go:267-287 | binding leaf by leaf applies BindLeaf to each |
| Binder.BindLeafwise | internal/core/flags.go:248-289 | nested structs are bound against the same flat namespace: the leaves of the bound value are each leaf bound alone |
| Binder.BindUpToLeafwise | internal/core/flags.go:249-265 | the same for a prefix of the fields |
| Binder.BindFieldLeafwise | internal/core/flags.go:262-265 | the same for one field |
| Binder.BindLeavesAppend | internal/core/flags.go:249-265 | leafwise binding of two runs is concatenated |
| Binder.OnlyChangedLeavesWritten | internal/core/flags.go:267-287 | a leaf whose flag was not changed keeps its value; a changed string or bool leaf gets the getter's result; a leaf of another kind is never written |
| Binder.BindUnchanged | internal/core/flags.go:248-289 | with no changed leaf flag, binding leaves the value unchanged |
| Binder.BindUpToUnchanged | internal/core/flags.go:249-265 | the same for a prefix of the fields |
| Binder.BindFieldUnchanged | internal/core/flags.go:262-265 | the same for one field |
| Binder.SetStringFlagReachesLeaves | internal/core/flags.go:270-277 | setting string flag n to x writes x into every string leaf named n, false into a bool leaf named n, and leaves the other leaves as before |
| Help.LeafLinesAppend | internal/core/helper.go:32-41 | the lines of two runs of leaves are concatenated |
| Help.FormatStructFields | internal/core/helper.go:31-42 | appends exactly one line " - name: help (type)\n" per leaf, in depth-first order; struct fields get no line |
| Help.GenerateHelpMessage | internal/core/helper.go:9-28 | the four header lines, then either "  (no input fields found)\n" when there is no struct Input, or one line per leaf |
| Help.SmbLeaves | internal/core/helper.go:31-37 | the shipped module's leaves are Host and HostFile from the nested Targets, then the Credentials interface |
| Help.SmbArgumentLines | internal/core/helper.go:31-42 | its help lists those three leaves, the interface one included |
| Help.EmptyHelpNoFallback | internal/core/helper.go:39-40 | an empty help tag prints nothing between ": " and " (" |
| Help.OneLine | internal/core/helper.go:40 | a single leaf gives a single line |
| Help.DuplicateLeavesListed | internal/core/helper.go:31-42 | two leaves with the same name both get a line |
| Logging.Instance.constructor | internal/core/logging.go:19-22 | a fresh instance's Input is the zero value of its type, or absent when the module has none |
| Logging.BoundInput | internal/core/logging.go:33-36 | the bound input still has the Input type |
| Logging.RunModuleWithLogging | internal/core/logging.go:13-59 | no Input field gives an error naming the module, and Run is not called; otherwise the Input field holds the zero value bound from the flags (Configure is not called), Run receives it, its error is returned unchanged, and success returns nil |
| Logging.BoundInputLeaves | internal/core/logging.go:32-37 | every leaf Run sees is the flag's value where that flag was changed, and the zero value otherwise |
| Logging.NoFlagGivenRunsZero | internal/core/logging.go:32-37 | when no input flag was given, Run receives the zero input |
| Shapes.ZeroLeafValues | internal/core/logging.go:33 | every leaf of a zero struct value holds the zero value of its own type |
| Shapes.Zero | internal/core/logging.go:33 | the zero value has the given type |
| Targets.GetTargets | pkg/modules/targets.go:92-132 | a non-empty HostFile wins: a failed open returns no targets and the open error; an opened file gives its trimmed non-blank lines and nil, whatever the scanner or close reported; otherwise an empty Host is an error, and a non-empty Host gives exactly one target, untrimmed; the result is `ExpandTargets`, the function the modules' Run contracts are stated with |
| Targets.FileTargetsAppend | pkg/modules/targets.go:109-115 | reading a file in two parts yields both parts' targets in order |
| Targets.FileTargetsAreTrimmedLines | pkg/modules/targets.go:108-115 | every file target is non-empty, has no surrounding white space, and is the trimmed form of some line |
| Targets.FileTargetsOnePerLine | pkg/modules/targets.go:108-115 | without blank lines, there is one target per line, in file order |
| Targets.TrimmedAddressExample | pkg/modules/targets.go:110 | surrounding spaces are trimmed off an address |
| Targets.FileTargetsExample | pkg/modules/targets.go:108-115 | the lines "10.0.0.1", "", "  10.0.0.2  " give two targets |
| Targets.ResolveToIP | pkg/modules/targets.go:43-64 | an IP literal returns its canonical text without lookup; a failed or empty lookup is an error; otherwise the first IPv4 result, or the first result when there is no IPv4 |
| Targets.StripTrailingDot | pkg/modules/targets.go:83-86 | one trailing '.' is removed; any other name is unchanged |
| Targets.ResolveToDomain | pkg/modules/targets.go:69-89 | a non-IP host is returned unchanged; for an IP, a failed or empty reverse lookup is an error, else the first name, with one trailing '.' removed when it has one and unchanged otherwise |
| Generic.StopsAtFirstFailureIsDeterministic | internal/modules/smb/list-shares.go:57-64 | the run-loop contract fixes the calls made and the error returned |
| Generic.SecondOfThreeFails | internal/modules/smb/list-shares.go:57-62 | when the second of three targets fails, the third is never attempted |
| Smb.Module.constructor | internal/core/moduleChooser.go:16-18 | the factory's module has a zero Input |
| Smb.Module.Configure | internal/modules/smb/list-shares.go:42-49 | a ModuleInput is stored and nil returned; anything else gives "invalid input type" and leaves Input unchanged |
| Smb.Module.Run | internal/modules/smb/list-shares.go:51-65 | a GetTargets error is returned before any RunOnce; otherwise RunOnce is called on the targets in order up to and including the first failure, whose error is returned; nil when all succeed |
| ListShares.ShareRightsString | internal/modules/smb/list-shares/config.go:57-62 | "" for every value |
| ListShares.ListSharesModule.Configure | internal/modules/smb/list-shares/config.go:48-55 | a ModuleInput is stored and nil returned; anything else gives "invalid input type" and leaves Input unchanged |
| ListShares.ListSharesModule.Run | internal/modules/smb/list-shares/list-shares.go:11-26 | the results are nil on every path; a GetTargets error is returned before any RunOnce; RunOnce runs in target order and stops at the first error, which is returned; nil when all succeed |
| SmbAuth.SMBAuthAsWritten | pkg/modules/smb.go:8-12 | the callback as written answers ("", "", "") to every request |
| SmbAuth.SMBAuthAsWrittenLosesCredentials | pkg/modules/smb.go:9-11 | built from ("WORKGROUP", "alice", "secret"), it does not return those credentials |
| SmbAuth.SMBAuth | pkg/modules/smb.go:8-12 | the corrected callback answers every request with the credentials it captured |

## Findings

| source | as written | input that shows it | evidently intended | confidence | as-written member | corrected member |
|---|---|---|---|---|---|---|
| pkg/modules/smb.go:8-12 | the closure's named results `domain, username, password` shadow the parameters of `SMBAuth`, so `return domain, username, password` returns three empty strings | `SMBAuth("WORKGROUP", "alice", "secret")("fileserver", "C$")` yields `("", "", "")` | the callback returns the captured credentials | high (not executed) | SmbAuth.SMBAuthAsWritten | SmbAuth.SMBAuth |

## Left out

- Text.Lower: `strings.ToLower` and `EqualFold` are modelled on ASCII letters only; full Unicode case mapping and folding are not modelled.
- File I/O: `open` gives a host file's lines (as `bufio.Scanner` splits them), the scanner's error and the close error, or the open error. Descriptors, buffering and the scanner's token limit are not modelled.
- DNS and IP parsing: `net.ParseIP`, `IP.String`, `To4`, `net.LookupIP` and `net.LookupAddr` are the `Resolver` oracle.
- Targets.ResolveToIP: the error's `%w` operand is the lookup's error, or absent when the lookup succeeded with no results; the message text is not modelled.
- Logging and time: `slog` messages and levels, and `time.Now`/`Since`, are not modelled. Binding warnings are returned as values, and `Run`'s message is dropped.
- Cli.Dispatch: decides on the action only. It takes the parsed flag values and positional arguments as given. cobra's parsing, `cmd.Help()`, all printing, `--verbose` and the result of actually running the module are not modelled; `RunModule` names the entry to be passed to `RunModuleWithLogging`.
- Cli.ScanModuleFlag: `os.Args` is a parameter holding at least the program name. SetupCLI's registration of the global flags, `Execute`, `ExecuteCLI` and main.go are not modelled; the global flags can be passed in as the starting flag set.
- Cli.FindModuleByName: returns the index of the entry instead of a pointer into the slice.
- Cli.CollectAllTags, Validation.ValidateModules: map iteration order is a nondeterministic choice, so the model promises no particular tag order and no particular reported duplicate beyond the stated kinds and contents.
- Binder.SetStructFromFlags: returns the bound value instead of writing into a `reflect.Value` in place, so aliasing between the value and the module's field is not modelled. `Logging.RunModuleWithLogging` stores the returned value into the instance's `Input` field.
- Registry and getModuleInputType: a factory is represented by the type of its module's `Input` field (or its absence), which is all the core inspects; the module instance itself is not built for help or flag derivation.
- Smb.Module.Run, ListShares.ListSharesModule.Run: the methods take the file system and `RunOnce` as parameters. The `RunOnce` bodies (libsmbclient `Opendir`/`Readdir`, `SetupSMBAuth`) are not modelled.
- Smb.Module.Run, ListShares.ListSharesModule.Run: `runOnce` is a function of the target alone, so a host listed twice gets the same outcome both times. The real `RunOnce` does network I/O and may succeed once and fail the next time; the model does not capture that.
- Module interface: the `Module` interface in pkg/modules/generic.go does not match the modules' own method signatures. Each file's methods are modelled as written, and the interface is not.
- Kerberos, hash authentication and CIDR expansion exist only as TODOs and are not modelled.
- Go panics: a flag registered twice and `NumField` of a non-struct type end the Go program. The model returns them as `FlagRedefined` and `NonStructType` errors.

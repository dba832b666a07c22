/** internal/core/flags.go, the command-line half: the positional-tag
    scanner, the pre-scan for `-M`, the union of all tags, lookup by name and
    the decision RunE takes. cobra's parsing is not modelled: RunE's parsed
    flags are parameters. */
module Cli {
  import opened Errors
  import opened Text
  import opened Registry
  import opened Tags
  import opened Binder

  // ---------------------------------------------------------------------
  // extractTags

  /** The flags whose value is the next argument. */
  predicate TakesValue(arg: string)
  {
    arg == "-M" || arg == "--module" || arg == "-t" || arg == "--tags"
  }

  /** The positional arguments of `args`: everything not starting with "-",
      except the argument right after a flag that takes a value. */
  function TagsOf(args: seq<string>): seq<string>
  {
    if args == [] then []
    else if HasPrefix(args[0], "-") then
      if TakesValue(args[0]) then (if |args| >= 2 then TagsOf(args[2..]) else [])
      else TagsOf(args[1..])
    else [args[0]] + TagsOf(args[1..])
  }

  /** The tags still to come from position `i` on, `skip` saying whether the
      argument at `i` is a flag's value. */
  function TagsFrom(args: seq<string>, i: nat, skip: bool): seq<string>
    requires i <= |args|
  {
    if !skip then TagsOf(args[i..])
    else if i < |args| then TagsOf(args[i + 1..])
    else []
  }

  /** extractTags. */
  method ExtractTags(args: seq<string>) returns (tags: seq<string>)
    ensures tags == TagsOf(args)
  {
    tags := [];
    var skipNext := false;
    for i := 0 to |args|
      invariant tags + TagsFrom(args, i, skipNext) == TagsOf(args)
    {
      var arg := args[i];
      ScanStep(args, i, skipNext);
      if skipNext {
        skipNext := false;
        continue;
      }
      if HasPrefix(arg, "-") {
        if TakesValue(arg) {
          skipNext := true;
        }
        continue;
      }
      Associative(tags, [arg], TagsFrom(args, i + 1, false));
      tags := tags + [arg];
    }
  }

  /** One argument of the scan: a skipped value, a flag, or a tag. */
  lemma ScanStep(args: seq<string>, i: nat, skip: bool)
    requires i < |args|
    ensures skip ==> TagsFrom(args, i, skip) == TagsFrom(args, i + 1, false)
    ensures !skip && HasPrefix(args[i], "-") ==>
              TagsFrom(args, i, skip) == TagsFrom(args, i + 1, TakesValue(args[i]))
    ensures !skip && !HasPrefix(args[i], "-") ==>
              TagsFrom(args, i, skip) == [args[i]] + TagsFrom(args, i + 1, false)
  {
    assert args[i..] == [args[i]] + args[i + 1..];
    if i + 1 < |args| {
      assert args[i..][2..] == args[i + 2..];
      assert args[i + 1..] == [args[i + 1]] + args[i + 2..];
    }
  }

  /** `a` is `b` with some elements removed. */
  predicate Subsequence(a: seq<string>, b: seq<string>)
    decreases |b|
  {
    if a == [] then true
    else if b == [] then false
    else (a[0] == b[0] && Subsequence(a[1..], b[1..])) || Subsequence(a, b[1..])
  }

  lemma {:induction false} SubsequenceOfTail(a: seq<string>, b: seq<string>)
    requires b != [] && Subsequence(a, b[1..])
    ensures Subsequence(a, b)
  {
  }

  /** The tags are the arguments in order, some dropped. */
  lemma {:induction false} TagsAreSubsequence(args: seq<string>)
    ensures Subsequence(TagsOf(args), args)
    decreases |args|
  {
    if args != [] {
      TagsAreSubsequence(args[1..]);
      if HasPrefix(args[0], "-") {
        if TakesValue(args[0]) && |args| >= 2 {
          TagsAreSubsequence(args[2..]);
          assert args[1..][1..] == args[2..];
          SubsequenceOfTail(TagsOf(args[2..]), args[1..]);
        }
        if TagsOf(args) != [] {
          SubsequenceOfTail(TagsOf(args), args);
        }
      } else {
        assert TagsOf(args)[1..] == TagsOf(args[1..]);
      }
    }
  }

  /** No tag starts with "-", and every tag is one of the arguments. */
  lemma {:induction false} TagsAreNotFlags(args: seq<string>)
    ensures forall t :: t in TagsOf(args) ==> !HasPrefix(t, "-") && t in args
    decreases |args|
  {
    if args != [] {
      TagsAreNotFlags(args[1..]);
      if |args| >= 2 {
        TagsAreNotFlags(args[2..]);
        assert forall t :: t in args[2..] ==> t in args;
      }
      assert forall t :: t in args[1..] ==> t in args;
    }
  }

  /** Without any argument starting with "-", every argument is a tag. */
  lemma {:induction false} PlainArgumentsAreTags(args: seq<string>)
    requires forall k :: 0 <= k < |args| ==> !HasPrefix(args[k], "-")
    ensures TagsOf(args) == args
    decreases |args|
  {
    if args != [] {
      assert forall k :: 0 <= k < |args[1..]| ==> args[1..][k] == args[k + 1];
      PlainArgumentsAreTags(args[1..]);
    }
  }

  /** The value of `-M` is not a tag; a trailing flag without its value is dropped. */
  lemma TagsExample()
    ensures TagsOf(["smb", "-M", "list-shares", "--verbose", "shares"]) == ["smb", "shares"]
    ensures TagsOf(["smb", "--module"]) == ["smb"]
  {
    var a := ["smb", "-M", "list-shares", "--verbose", "shares"];
    assert a[0][..1][0] != '-' && a[4][..1][0] != '-';
    assert HasPrefix(a[1], "-") && HasPrefix(a[3], "-") && !HasPrefix(a[0], "-") && !HasPrefix(a[4], "-");
    assert a[1..][2..] == a[3..];
    assert a[3..][1..] == a[4..];
    assert a[4..][1..] == [];
    var b := ["smb", "--module"];
    assert b[0][..1][0] != '-';
    assert HasPrefix(b[1], "-") && !HasPrefix(b[0], "-");
    assert b[1..] == ["--module"];
  }

  // ---------------------------------------------------------------------
  // the -M scan of addModuleFlagsIfRequested

  predicate IsModuleFlag(arg: string)
  {
    arg == "-M" || arg == "--module"
  }

  /** The value of -M in os.Args[1:]: the argument after the first
      -M/--module, "" when there is none or it is the last argument. */
  function ModuleFlagValue(args: seq<string>): string
  {
    if args == [] then ""
    else if IsModuleFlag(args[0]) then (if |args| >= 2 then args[1] else "")
    else ModuleFlagValue(args[1..])
  }

  /** The scan over os.Args[1:]; `osArgs[0]` is the program name. */
  method ScanModuleFlag(osArgs: seq<string>) returns (moduleName: string)
    requires |osArgs| >= 1
    ensures moduleName == ModuleFlagValue(osArgs[1..])
  {
    moduleName := "";
    var args := osArgs[1..];
    for i := 0 to |args|
      invariant ModuleFlagValue(args[i..]) == ModuleFlagValue(args)
    {
      var arg := args[i];
      assert args[i..][1..] == args[i + 1..];
      if arg == "-M" || arg == "--module" {
        if i + 1 < |osArgs| - 1 {
          moduleName := osArgs[i + 2];
        }
        return;
      }
    }
  }

  /** Only the first -M/--module counts; later ones are ignored. */
  lemma {:induction false} ModuleFlagValueIsFirst(args: seq<string>, i: nat)
    requires i < |args| && IsModuleFlag(args[i])
    requires forall j :: 0 <= j < i ==> !IsModuleFlag(args[j])
    ensures ModuleFlagValue(args) == (if i + 1 < |args| then args[i + 1] else "")
    decreases i
  {
    if i > 0 {
      var rest := args[1..];
      assert forall j :: 0 <= j < i - 1 ==> rest[j] == args[j + 1];
      ModuleFlagValueIsFirst(rest, i - 1);
    }
  }

  /** Without -M/--module the module name is "". */
  lemma {:induction false} ModuleFlagValueAbsent(args: seq<string>)
    requires forall i :: 0 <= i < |args| ==> !IsModuleFlag(args[i])
    ensures ModuleFlagValue(args) == ""
    decreases |args|
  {
    if args != [] {
      var rest := args[1..];
      assert forall j :: 0 <= j < |rest| ==> rest[j] == args[j + 1];
      ModuleFlagValueAbsent(rest);
    }
  }

  // ---------------------------------------------------------------------
  // findModuleByName

  /** The first index at or after `from` whose name equals `name` under ToLower. */
  function FindFrom(name: string, modules: seq<ModuleEntry>, from: nat): (r: Option<nat>)
    requires from <= |modules|
    ensures r.Some? ==> from <= r.value < |modules|
                        && Lower(modules[r.value].metadata.uniqueName) == Lower(name)
                        && forall j :: from <= j < r.value ==> Lower(modules[j].metadata.uniqueName) != Lower(name)
    ensures r.None? ==> forall j :: from <= j < |modules| ==> Lower(modules[j].metadata.uniqueName) != Lower(name)
    decreases |modules| - from
  {
    if from == |modules| then None
    else if Lower(modules[from].metadata.uniqueName) == Lower(name) then Some(from)
    else FindFrom(name, modules, from + 1)
  }

  /** findModuleByName: the index of the first module whose lower-cased name
      is the lower-cased query, None when there is none. */
  function FindModuleByName(name: string, modules: seq<ModuleEntry>): (r: Option<nat>)
    ensures r.Some? ==> r.value < |modules|
                        && Lower(modules[r.value].metadata.uniqueName) == Lower(name)
                        && forall j :: 0 <= j < r.value ==> Lower(modules[j].metadata.uniqueName) != Lower(name)
    ensures r.None? <==> forall j :: 0 <= j < |modules| ==> Lower(modules[j].metadata.uniqueName) != Lower(name)
  {
    FindFrom(name, modules, 0)
  }

  /** The shipped module is found under any capitalisation of its name. */
  lemma FindListSharesExample()
    ensures FindModuleByName("List-Shares", AllModules) == Some(0)
    ensures FindModuleByName("list-share", AllModules) == None
    ensures FindModuleByName("list-shares", AllModules) == Some(0)
  {
    var name := AllModules[0].metadata.uniqueName;
    assert name == "list-shares";
    assert Lower(name) == Lower("List-Shares");
    assert Lower(name) != Lower("list-share");
    assert FindFrom("list-shares", AllModules, 0) == Some(0);
    assert FindFrom("List-Shares", AllModules, 0) == Some(0);
    assert |AllModules| == 1;
    assert FindFrom("list-share", AllModules, 0) == None;
  }

  // ---------------------------------------------------------------------
  // addModuleFlagsIfRequested

  /** addModuleFlagsIfRequested: when -M names a module among those the
      positional tags select, add the flags of its input type. */
  method AddModuleFlagsIfRequested(osArgs: seq<string>, all: seq<ModuleEntry>, flags: FlagSet)
    returns (r: Result<FlagSet>)
    requires |osArgs| >= 1
    ensures var name := ModuleFlagValue(osArgs[1..]);
            var matching := Filtered(all, TagsOf(osArgs[1..]));
            var found := FindModuleByName(name, matching);
            && (name == "" || found.None? ==> r == Ok(flags))
            && (name != "" && found.Some? ==> FlagsAdded(flags, matching[found.value].inputType, r))
  {
    var moduleName := ScanModuleFlag(osArgs);
    if moduleName != "" {
      var tags := ExtractTags(osArgs[1..]);
      var matching := FilterModulesByTags(all, tags);
      var entry := FindModuleByName(moduleName, matching);
      if entry.Some? {
        r := AddFlagsFromStruct(flags, matching[entry.value].inputType);
        return;
      }
    }
    r := Ok(flags);
  }

  // ---------------------------------------------------------------------
  // collectAllTags

  /** The lower-cased labels of a label list. */
  function LowerSet(labels: seq<string>): set<string>
  {
    if labels == [] then {} else LowerSet(labels[..|labels| - 1]) + {Lower(labels[|labels| - 1])}
  }

  /** The lower-cased labels of all entries. */
  function LabelSet(all: seq<ModuleEntry>): set<string>
  {
    if all == [] then {} else LabelSet(all[..|all| - 1]) + LowerSet(all[|all| - 1].metadata.labels)
  }

  lemma {:induction false} LowerSetMembers(labels: seq<string>, x: string)
    ensures x in LowerSet(labels) <==> exists j :: 0 <= j < |labels| && Lower(labels[j]) == x
  {
    if labels != [] {
      var p := labels[..|labels| - 1];
      LowerSetMembers(p, x);
      if exists j :: 0 <= j < |p| && Lower(p[j]) == x {
        var j :| 0 <= j < |p| && Lower(p[j]) == x;
        assert labels[j] == p[j];
      }
      if exists j :: 0 <= j < |labels| && Lower(labels[j]) == x {
        var j :| 0 <= j < |labels| && Lower(labels[j]) == x;
        if j < |p| { assert p[j] == labels[j]; }
      }
    }
  }

  /** A tag is in the union exactly when it is the lower-cased form of some label of some entry. */
  lemma {:induction false} LabelSetMembers(all: seq<ModuleEntry>, x: string)
    ensures x in LabelSet(all) <==>
              exists i, j :: 0 <= i < |all| && 0 <= j < |all[i].metadata.labels| && Lower(all[i].metadata.labels[j]) == x
  {
    if all != [] {
      var p := all[..|all| - 1];
      var last := all[|all| - 1];
      LabelSetMembers(p, x);
      LowerSetMembers(last.metadata.labels, x);
      if exists i, j :: 0 <= i < |p| && 0 <= j < |p[i].metadata.labels| && Lower(p[i].metadata.labels[j]) == x {
        var i, j :| 0 <= i < |p| && 0 <= j < |p[i].metadata.labels| && Lower(p[i].metadata.labels[j]) == x;
        assert all[i] == p[i];
      }
      if exists i, j :: 0 <= i < |all| && 0 <= j < |all[i].metadata.labels| && Lower(all[i].metadata.labels[j]) == x {
        var i, j :| 0 <= i < |all| && 0 <= j < |all[i].metadata.labels| && Lower(all[i].metadata.labels[j]) == x;
        if i < |p| {
          assert p[i] == all[i];
        } else {
          assert all[i] == last;
        }
      }
    }
  }

  /** No element occurs twice. */
  predicate Distinct(s: seq<string>)
  {
    forall i, j :: 0 <= i < j < |s| ==> s[i] != s[j]
  }

  /** collectAllTags: every lower-cased label exactly once, in the order the
      set is iterated. */
  method CollectAllTags(all: seq<ModuleEntry>) returns (tags: seq<string>)
    ensures forall t :: t in tags <==> t in LabelSet(all)
    ensures Distinct(tags)
    ensures |tags| == |LabelSet(all)|
  {
    var tagSet: set<string> := {};
    for i := 0 to |all|
      invariant tagSet == LabelSet(all[..i])
    {
      assert all[..i + 1][..i] == all[..i];
      var labels := all[i].metadata.labels;
      ghost var before := tagSet;
      for j := 0 to |labels|
        invariant tagSet == before + LowerSet(labels[..j])
      {
        assert labels[..j + 1][..j] == labels[..j];
        tagSet := tagSet + {Lower(labels[j])};
      }
      assert labels[..|labels|] == labels;
    }
    assert all[..|all|] == all;
    tags := [];
    var rest := tagSet;
    while rest != {}
      invariant rest <= tagSet
      invariant forall t :: t in tagSet <==> t in tags || t in rest
      invariant forall t :: t in tags ==> t !in rest
      invariant Distinct(tags)
      invariant |tags| + |rest| == |tagSet|
      decreases rest
    {
      var t :| t in rest;
      tags := tags + [t];
      rest := rest - {t};
    }
  }

  /** The shipped registry has the single tag "smb". */
  lemma RegistryTags()
    ensures LabelSet(AllModules) == {"smb"}
  {
    var labels := AllModules[0].metadata.labels;
    assert labels == ["SMB"];
    assert labels[..0] == [];
    assert Lower("SMB") == "smb";
    assert AllModules[..0] == [];
  }

  // ---------------------------------------------------------------------
  // RunE

  /** What RunE does once the flags are parsed. The list actions carry what
      is printed; printing itself is not modelled. */
  datatype Action =
    | ShowHelp
    | ListAllTags
    | ListMatching(matching: seq<ModuleEntry>, tags: seq<string>)
    | ShowModuleOptions(entry: ModuleEntry)
    | RunModule(entry: ModuleEntry)
    | Fail(error: Error)
    | Done

  /** RunE's chain of checks, in source order. */
  function Dispatch(listTags: bool, listModules: bool, moduleName: string, showOptions: bool,
                    args: seq<string>, all: seq<ModuleEntry>): (r: Action)
    ensures var tags := TagsOf(args);
            r == ShowHelp <==> |tags| == 0 && !listTags && !listModules && moduleName == ""
    ensures var tags := TagsOf(args);
            moduleName != "" && |tags| == 0 ==> r == Fail(NoTagsForModule)
    ensures var tags := TagsOf(args);
            listTags && (|tags| > 0 || moduleName == "") ==> r == ListAllTags
    ensures var tags := TagsOf(args);
            !listTags && listModules && (|tags| > 0 || moduleName == "") ==> r == ListMatching(Filtered(all, tags), tags)
    ensures var tags := TagsOf(args);
            var matching := Filtered(all, tags);
            var found := FindModuleByName(moduleName, matching);
            !listTags && !listModules && moduleName != "" && |tags| > 0 ==>
              r == (if found.None? then Fail(ModuleNotFound(moduleName))
                    else if showOptions then ShowModuleOptions(matching[found.value])
                    else RunModule(matching[found.value]))
    ensures var tags := TagsOf(args);
            !listTags && !listModules && moduleName == "" && |tags| > 0 ==> r == Fail(TagsWithoutAction(tags))
    ensures r != Done
  {
    var tags := TagsOf(args);
    if |tags| == 0 && !listTags && !listModules && moduleName == "" then ShowHelp
    else if moduleName != "" && |tags| == 0 then Fail(NoTagsForModule)
    else if listTags then ListAllTags
    else
      var matching := Filtered(all, tags);
      if listModules then ListMatching(matching, tags)
      else if moduleName != "" then
        var entry := FindModuleByName(moduleName, matching);
        if showOptions then
          (if entry.None? then Fail(ModuleNotFound(moduleName)) else ShowModuleOptions(matching[entry.value]))
        else
          (if entry.None? then Fail(ModuleNotFound(moduleName)) else RunModule(matching[entry.value]))
      else if |tags| > 0 && !listTags && !listModules then Fail(TagsWithoutAction(tags))
      else Done
  }

  /** The pre-scan reads the tags from the raw `os.Args[1:]`, where `-M`
      and its value are still present. */
  lemma ModuleArgsExample()
    ensures TagsOf(["-M", "list-shares", "smb"]) == ["smb"]
    ensures TagsOf(["-M", "list-shares"]) == []
  {
    var a := ["-M", "list-shares", "smb"];
    assert a[2][..1][0] != '-';
    assert HasPrefix(a[0], "-") && !HasPrefix(a[2], "-");
    assert a[2..] == ["smb"] && a[2..][1..] == [];
    var b := ["-M", "list-shares"];
    assert HasPrefix(b[0], "-") && b[2..] == [];
  }

  /** RunE's positional arguments `smb` are the one tag "smb". */
  lemma SmbTagExample()
    ensures TagsOf(["smb"]) == ["smb"]
  {
    assert "smb"[..1][0] != '-';
    assert ["smb"][1..] == [];
  }

  /** `-M list-shares smb` runs the shipped module, shows its options with
      `--options`, and is refused without the tag. cobra has already taken
      `-M list-shares` out of RunE's positional arguments. */
  lemma DispatchExample()
    ensures Dispatch(false, false, "list-shares", false, ["smb"], AllModules) == RunModule(AllModules[0])
    ensures Dispatch(false, false, "list-shares", true, ["smb"], AllModules) == ShowModuleOptions(AllModules[0])
    ensures Dispatch(false, false, "list-shares", false, [], AllModules) == Fail(NoTagsForModule)
  {
    SmbTagExample();
    SmbTagSelectsRegistry();
    FindListSharesExample();
  }
}

/** internal/modules/smb/list-shares.go: the SMB share-listing module that the
    registry holds. Its per-target work (libsmbclient) is the parameter
    `runOnce`; the host file system is the parameter `open`. */
module Smb {
  import opened Errors
  import opened Shapes
  import opened Targets
  import opened Generic

  const Metadata: ModuleMetadata := ModuleMetadata(
    "list-shares",
    "List-shares is a SMB module aiming at getting first information about SMB shares such as: open shares, rights, and more.",
    ["SMB"])

  datatype ModuleInput = ModuleInput(targets: Targets, credentials: Credentials)

  /** reflect's view of `ModuleInput`: a nested `Targets` struct and an interface leaf. */
  const ModuleInputType: Type := StructType("ModuleInput", [
    Field("Targets", "", TargetsType),
    Field("Credentials", "", CredentialsType)
  ])

  /** The dynamic type behind Configure's `any` parameter. */
  datatype Dynamic = IsModuleInput(input: ModuleInput) | NotModuleInput(typeName: string)

  class Module {
    var Input: ModuleInput

    /** &smb.Module{}: every field zero. */
    constructor ()
      ensures Input == ModuleInput(Targets("", ""), NilCredentials)
    {
      Input := ModuleInput(Targets("", ""), NilCredentials);
    }

    /** Configure: only a ModuleInput is accepted. */
    method Configure(input: Dynamic) returns (err: Option<Error>)
      modifies this
      ensures input.IsModuleInput? ==> err == None && Input == input.input
      ensures input.NotModuleInput? ==> err == Some(InvalidInputType) && Input == old(Input)
    {
      if !input.IsModuleInput? {
        return Some(InvalidInputType);
      }
      Input := input.input;
      err := None;
    }

    /** Run: expand the targets, then RunOnce on each in order until the first
        error. `attempted` records the RunOnce calls. */
    method Run(open: string -> OpenResult, runOnce: ModuleTarget -> Option<Error>)
      returns (err: Option<Error>, ghost attempted: seq<ModuleTarget>)
      ensures ExpandTargets(Input.targets, open).1.Some? ==>
                err == ExpandTargets(Input.targets, open).1 && attempted == []
      ensures ExpandTargets(Input.targets, open).1.None? ==>
                StopsAtFirstFailure(ExpandTargets(Input.targets, open).0, runOnce, attempted, err)
    {
      var targets, terr := GetTargets(Input.targets, open);
      attempted := [];
      if terr.Some? {
        return terr, attempted;
      }
      for i := 0 to |targets|
        invariant attempted == targets[..i]
        invariant forall k :: 0 <= k < i ==> runOnce(targets[k]).None?
      {
        attempted := attempted + [targets[i]];
        var e := runOnce(targets[i]);
        if e.Some? {
          return e, attempted;
        }
      }
      err := None;
    }
  }
}

/** internal/modules/smb/list-shares/config.go and list-shares.go: the
    `listshares` variant of the share-listing module. Its per-target work
    (libsmbclient) is the parameter `runOnce`; the host file system is `open`. */
module ListShares {
  import opened Errors
  import opened Targets
  import opened Generic

  const Metadata: ModuleMetadata := ModuleMetadata(
    "list-shares",
    "List-shares is a SMB module aiming at getting first information about SMB shares such as: open shares, rights, and more.",
    ["SMB", "Shares", "Low-Privilege"])

  datatype ModuleInput = ModuleInput(targets: Targets, credentials: Credentials)

  /** The dynamic type behind Configure's `any` parameter; a ModuleInput of
      another package is a different type and lands in `NotModuleInput`. */
  datatype Dynamic = IsModuleInput(input: ModuleInput) | NotModuleInput(typeName: string)

  newtype uint8 = x: int | 0 <= x < 256

  type ShareRights = uint8

  datatype Share = Share(name: string, host: string, shareRights: ShareRights)

  /** ShareRights.String: its switch has only a default case. */
  function ShareRightsString(sr: ShareRights): (r: string)
    ensures r == ""
  {
    match sr
    case _ => ""
  }

  class ListSharesModule {
    var Input: ModuleInput

    /** A zero ListSharesModule. */
    constructor ()
      ensures Input == ModuleInput(Targets("", ""), NilCredentials)
    {
      Input := ModuleInput(Targets("", ""), NilCredentials);
    }

    /** Configure: only a ModuleInput is accepted. */
    method Configure(input: Dynamic) returns (err: Option<Error>)
      modifies this
      ensures input.IsModuleInput? ==> err == None && Input == input.input
      ensures input.NotModuleInput? ==> err == Some(InvalidInputType) && Input == old(Input)
    {
      if !input.IsModuleInput? {
        return Some(InvalidInputType);
      }
      Input := input.input;
      err := None;
    }

    /** Run: expand the targets, then RunOnce on each in order until the first
        error. The results slice is nil on every path. `attempted` records the
        RunOnce calls. */
    method Run(open: string -> OpenResult, runOnce: ModuleTarget -> Option<Error>)
      returns (results: seq<Share>, err: Option<Error>, ghost attempted: seq<ModuleTarget>)
      ensures results == []
      ensures ExpandTargets(Input.targets, open).1.Some? ==>
                err == ExpandTargets(Input.targets, open).1 && attempted == []
      ensures ExpandTargets(Input.targets, open).1.None? ==>
                StopsAtFirstFailure(ExpandTargets(Input.targets, open).0, runOnce, attempted, err)
    {
      var targets, terr := GetTargets(Input.targets, open);
      attempted := [];
      if terr.Some? {
        return [], terr, attempted;
      }
      for i := 0 to |targets|
        invariant attempted == targets[..i]
        invariant forall k :: 0 <= k < i ==> runOnce(targets[k]).None?
      {
        attempted := attempted + [targets[i]];
        var e := runOnce(targets[i]);
        if e.Some? {
          return [], e, attempted;
        }
      }
      return [], None, attempted;
    }
  }
}

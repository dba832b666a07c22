/** pkg/modules/generic.go and auth.go: module metadata, the credentials a
    module input carries, and the contract a module's Run keeps with its
    per-target RunOnce. */
module Generic {
  import opened Errors
  import opened Shapes
  import opened Targets

  datatype ModuleMetadata = ModuleMetadata(
    uniqueName: string,        // must be unique to avoid collisions
    presentMessages: string,   // shown when listing modules
    labels: seq<string>)       // the tags to filter on

  /** The value held by the empty interface `Credentials`: nil, a
      username/password record, or anything else. */
  datatype Credentials =
    | NilCredentials
    | UsernamePass(domain: string, username: string, password: string)
    | OtherCredentials(token: nat)

  /** reflect's view of the interface `Credentials`: a leaf of interface kind. */
  const CredentialsType: Type := OtherType("Credentials")

  /** What a Run loop over `targets` that calls `runOnce` on each in order and
      returns the first error does: `attempted` lists the calls made, in order. */
  ghost predicate StopsAtFirstFailure(targets: seq<ModuleTarget>, runOnce: ModuleTarget -> Option<Error>,
                                      attempted: seq<ModuleTarget>, err: Option<Error>)
  {
    && |attempted| <= |targets|
    && attempted == targets[..|attempted|]
    && (forall k :: 0 <= k < |attempted| - 1 ==> runOnce(attempted[k]).None?)
    && (err.None? ==> attempted == targets && forall k :: 0 <= k < |targets| ==> runOnce(targets[k]).None?)
    && (err.Some? ==> |attempted| > 0 && runOnce(attempted[|attempted| - 1]) == err)
  }

  /** The predicate leaves no freedom: the calls made and the error returned
      are determined by the targets and the outcomes of RunOnce. */
  lemma StopsAtFirstFailureIsDeterministic(targets: seq<ModuleTarget>, runOnce: ModuleTarget -> Option<Error>,
                                           a1: seq<ModuleTarget>, e1: Option<Error>,
                                           a2: seq<ModuleTarget>, e2: Option<Error>)
    requires StopsAtFirstFailure(targets, runOnce, a1, e1)
    requires StopsAtFirstFailure(targets, runOnce, a2, e2)
    ensures a1 == a2 && e1 == e2
  {
    assert forall k :: 0 <= k < |a1| ==> a1[k] == targets[k];
    assert forall k :: 0 <= k < |a2| ==> a2[k] == targets[k];
    assert e1.Some? ==> runOnce(targets[|a1| - 1]) == e1;
    assert e2.Some? ==> runOnce(targets[|a2| - 1]) == e2;
    assert |a1| == |a2|;
  }

  /** Three targets, the second of which fails: the third is never attempted. */
  lemma SecondOfThreeFails(t0: ModuleTarget, t1: ModuleTarget, t2: ModuleTarget,
                           runOnce: ModuleTarget -> Option<Error>,
                           attempted: seq<ModuleTarget>, err: Option<Error>)
    requires runOnce(t0).None? && runOnce(t1).Some?
    requires StopsAtFirstFailure([t0, t1, t2], runOnce, attempted, err)
    ensures attempted == [t0, t1] && err == runOnce(t1)
  {
    var targets := [t0, t1, t2];
    assert runOnce(targets[1]).Some?;
    assert err.Some?;
    assert |attempted| > 0 ==> attempted[0] == t0;
    assert |attempted| > 1 ==> attempted[1] == t1;
    assert |attempted| == 2;
    assert attempted == targets[..2];
  }
}

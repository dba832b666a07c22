/** internal/core/logging.go: running the chosen module. The factory's
    instance is reached through reflection only: its `Input` field (when it
    has one) is overwritten with a zero value bound from the flags, and the
    module's Run, a parameter here, receives that value. slog and the clock
    are left out. */
module Logging {
  import opened Errors
  import opened Shapes
  import opened Registry
  import opened Binder

  /** What reflection sees of the instance `entry.Factory()` returns: the
      type of its `Input` field and the field's current value, both None
      when the struct has no such field. */
  class Instance {
    const inputType: Option<Type>
    var Input: Option<Value>

    /** A freshly built module: its Input, if any, is the zero value. */
    constructor (inputType: Option<Type>)
      ensures this.inputType == inputType
      ensures inputType.None? ==> Input.None?
      ensures inputType.Some? ==> Input == Some(Zero(inputType.value))
    {
      this.inputType := inputType;
      Input := if inputType.Some? then Some(Zero(inputType.value)) else None;
    }
  }

  /** The input value the module's Run receives for a struct input type: a
      zero instance bound from the flags. */
  function BoundInput(t: Type, flags: FlagSet): (r: Value)
    requires t.StructType?
    ensures Conforms(r, t)
  {
    Bind(Zero(t), t, flags)
  }

  /** RunModuleWithLogging. `run` is the module's Run applied to its Input,
      returning the error and the result message; `ran` records whether it
      was called. Configure is never called: the bound value is stored into
      the Input field directly. */
  method RunModuleWithLogging(entry: ModuleEntry, flags: FlagSet, run: Value -> (Option<Error>, string))
    returns (err: Option<Error>, mod: Instance, ghost ran: bool)
    ensures fresh(mod) && mod.inputType == entry.inputType
    ensures entry.inputType.None? ==>
              err == Some(NoInputField(entry.metadata.uniqueName)) && !ran && mod.Input.None?
    ensures entry.inputType.Some? && !entry.inputType.value.StructType? ==>
              err == Some(NonStructType(entry.inputType.value.name)) && !ran
    ensures entry.inputType.Some? && entry.inputType.value.StructType? ==>
              && ran
              && mod.Input == Some(BoundInput(entry.inputType.value, flags))
              && err == run(BoundInput(entry.inputType.value, flags)).0
  {
    mod := new Instance(entry.inputType);
    ran := false;
    if mod.inputType.None? {
      return Some(NoInputField(entry.metadata.uniqueName)), mod, ran;
    }
    var inputType := mod.inputType.value;
    if !inputType.StructType? {
      // setStructFromFlags asks a non-struct type for its fields: a panic.
      return Some(NonStructType(inputType.name)), mod, ran;
    }
    var inputInstance := Zero(inputType);
    var bound, warnings := SetStructFromFlags(inputInstance, inputType, flags);
    mod.Input := Some(bound);
    var res := run(bound);
    ran := true;
    var runErr, msg := res.0, res.1;
    if runErr.Some? {
      return runErr, mod, ran;
    }
    return None, mod, ran;
  }

  /** What Run receives, leaf by leaf: the flag's value for a string or bool
      leaf whose flag was changed, the zero value of its type otherwise. */
  lemma BoundInputLeaves(t: Type, flags: FlagSet, k: nat)
    requires t.StructType? && k < |Leaves(t)|
    ensures var f := Leaves(t)[k];
            var seen := LeafValues(BoundInput(t, flags), t)[k];
            && (!Changed(flags, f.name) || f.typ.OtherType? ==> seen == Zero(f.typ))
            && (Changed(flags, f.name) && f.typ.StringType? ==> seen == StringValue(GetString(flags, f.name).0))
            && (Changed(flags, f.name) && f.typ.BoolType? ==> seen == BoolValue(GetBool(flags, f.name).0))
  {
    OnlyChangedLeavesWritten(Zero(t), t, flags, k);
    ZeroLeafValues(t);
  }

  /** With no flag of the input given, the module runs on the zero input. */
  lemma NoFlagGivenRunsZero(t: Type, flags: FlagSet)
    requires t.StructType?
    requires forall f :: f in Leaves(t) ==> !Changed(flags, f.name)
    ensures BoundInput(t, flags) == Zero(t)
  {
    BindUnchanged(Zero(t), t, flags);
  }
}

/** internal/core/flags.go, the reflective half: deriving command-line flags
    from a module's input type and binding their values back into an input.
    The cobra/pflag flag set is a map from flag name to flag; `changed` is
    what the parser sets when the user gave the flag. */
module Binder {
  import opened Errors
  import opened Text
  import opened Shapes

  datatype Flag =
    | StringFlag(usage: string, s: string, changed: bool)
    | BoolFlag(usage: string, b: bool, changed: bool)

  type FlagSet = map<string, Flag>

  /** FlagSet.Changed: false for a flag that is not defined. */
  predicate Changed(flags: FlagSet, name: string)
  {
    name in flags && flags[name].changed
  }

  /** FlagSet.GetString: the value and whether the read succeeded; "" when the
      flag is undefined or not a string flag. */
  function GetString(flags: FlagSet, name: string): (r: (string, bool))
    ensures r.1 <==> name in flags && flags[name].StringFlag?
    ensures r.1 ==> r.0 == flags[name].s
    ensures !r.1 ==> r.0 == ""
  {
    if name in flags && flags[name].StringFlag? then (flags[name].s, true) else ("", false)
  }

  /** FlagSet.GetBool: the value and whether the read succeeded; false otherwise. */
  function GetBool(flags: FlagSet, name: string): (r: (bool, bool))
    ensures r.1 <==> name in flags && flags[name].BoolFlag?
    ensures r.1 ==> r.0 == flags[name].b
    ensures !r.1 ==> !r.0
  {
    if name in flags && flags[name].BoolFlag? then (flags[name].b, true) else (false, false)
  }

  /** The warnings setStructFromFlags logs. */
  datatype Warning = BadInput(flag: string) | UnknownFlagType

  // ---------------------------------------------------------------------
  // flattenStructFields

  /** The map built by inserting the leaves in order: a later leaf with the
      same name overwrites an earlier one. */
  function LastWins(leaves: seq<Field>): map<string, Field>
  {
    if leaves == [] then map[]
    else LastWins(leaves[..|leaves| - 1])[leaves[|leaves| - 1].name := leaves[|leaves| - 1]]
  }

  lemma {:induction false} LastWinsAppend(a: seq<Field>, b: seq<Field>)
    ensures LastWins(a + b) == LastWins(a) + LastWins(b)
    decreases |b|
  {
    if b == [] {
      assert a + b == a;
    } else {
      var b' := b[..|b| - 1];
      assert (a + b)[..|a + b| - 1] == a + b';
      LastWinsAppend(a, b');
    }
  }

  /** A name is a key exactly when some leaf has it, and its field is the
      last leaf with that name. */
  lemma {:induction false} LastWinsIsLastOccurrence(leaves: seq<Field>, n: string)
    ensures n in LastWins(leaves) <==> exists k :: 0 <= k < |leaves| && leaves[k].name == n
    ensures n in LastWins(leaves) ==>
              exists k :: 0 <= k < |leaves| && leaves[k].name == n && LastWins(leaves)[n] == leaves[k]
                          && forall m :: k < m < |leaves| ==> leaves[m].name != n
  {
    if leaves != [] {
      var last := |leaves| - 1;
      var p := leaves[..last];
      LastWinsIsLastOccurrence(p, n);
      if leaves[last].name != n {
        if n in LastWins(p) {
          var k :| 0 <= k < |p| && p[k].name == n && LastWins(p)[n] == p[k]
                   && forall m :: k < m < |p| ==> p[m].name != n;
          assert leaves[k] == p[k];
          assert forall m :: k < m < |leaves| ==> leaves[m].name != n by {
            forall m | k < m < |leaves| ensures leaves[m].name != n {
              if m < last { assert leaves[m] == p[m]; }
            }
          }
        }
        if exists k :: 0 <= k < |leaves| && leaves[k].name == n {
          var k :| 0 <= k < |leaves| && leaves[k].name == n;
          assert k < last && p[k] == leaves[k];
        }
      }
    }
  }

  /** flattenStructFields: the non-struct leaves keyed by their bare names,
      `maps.Copy` of a nested struct's map overwriting earlier keys. */
  method FlattenStructFields(t: Type) returns (fields: map<string, Field>)
    requires t.StructType?
    ensures fields == LastWins(Leaves(t))
    decreases t
  {
    fields := map[];
    for i := 0 to |t.fields|
      invariant fields == LastWins(LeavesUpTo(t, i))
    {
      var f := t.fields[i];
      if f.typ.StructType? {
        var nested := FlattenStructFields(f.typ);
        LastWinsAppend(LeavesUpTo(t, i), Leaves(f.typ));
        fields := fields + nested;
        continue;
      }
      assert FieldLeaves(f) == [f];
      assert (LeavesUpTo(t, i) + [f])[..|LeavesUpTo(t, i)|] == LeavesUpTo(t, i);
      fields := fields[f.name := f];
    }
  }

  // ---------------------------------------------------------------------
  // addFlagsFromStruct

  /** The flag registered for a leaf: string and bool kinds only, empty
      default, usage "<help tag> (<type name>)". */
  function MakeFlag(f: Field): (r: Option<Flag>)
    ensures r.Some? <==> f.typ.StringType? || f.typ.BoolType?
    ensures f.typ.StringType? ==> r == Some(StringFlag(f.help + " (" + f.typ.name + ")", "", false))
    ensures f.typ.BoolType? ==> r == Some(BoolFlag(f.help + " (" + f.typ.name + ")", false, false))
  {
    var usage := f.help + " (" + f.typ.name + ")";
    match f.typ
    case StringType(_) => Some(StringFlag(usage, "", false))
    case BoolType(_) => Some(BoolFlag(usage, false, false))
    case _ => None
  }

  /** The flags registered for the flattened fields named in `names`. */
  function FlagsFor(fields: map<string, Field>, names: set<string>): map<string, Flag>
  {
    map n | n in names && n in fields && MakeFlag(fields[n]).Some? :: MakeFlag(fields[n]).value
  }

  /** Registering one more field: its flag, if it has one, is added. The
      flag set `flags + FlagsFor(fields, done)` grows the same way. */
  lemma FlagsForStep(fields: map<string, Field>, done: set<string>, name: string)
    requires name in fields && name !in done
    ensures name !in FlagsFor(fields, done)
    ensures MakeFlag(fields[name]).Some? ==>
              FlagsFor(fields, done + {name}) == FlagsFor(fields, done)[name := MakeFlag(fields[name]).value]
    ensures MakeFlag(fields[name]).None? ==> FlagsFor(fields, done + {name}) == FlagsFor(fields, done)
  {
  }

  lemma UpdateUnion(a: FlagSet, b: FlagSet, name: string, x: Flag)
    ensures (a + b)[name := x] == a + b[name := x]
  {
  }

  /** All flags derived from a struct type. */
  function DerivedFlags(t: Type): map<string, Flag>
    requires t.StructType?
  {
    FlagsFor(LastWins(Leaves(t)), LastWins(Leaves(t)).Keys)
  }

  /** A flag is derived for `n` exactly when the last leaf named `n` is of
      string or bool kind, and it is that leaf's flag. */
  lemma DerivedFlagsAreLastLeaves(t: Type, n: string)
    requires t.StructType?
    ensures n in DerivedFlags(t) <==>
              exists k :: 0 <= k < |Leaves(t)| && Leaves(t)[k].name == n
                          && (forall m :: k < m < |Leaves(t)| ==> Leaves(t)[m].name != n)
                          && (Leaves(t)[k].typ.StringType? || Leaves(t)[k].typ.BoolType?)
    ensures n in DerivedFlags(t) ==>
              exists k :: 0 <= k < |Leaves(t)| && Leaves(t)[k].name == n
                          && (forall m :: k < m < |Leaves(t)| ==> Leaves(t)[m].name != n)
                          && Some(DerivedFlags(t)[n]) == MakeFlag(Leaves(t)[k])
  {
    var leaves := Leaves(t);
    var m := LastWins(leaves);
    LastWinsIsLastOccurrence(leaves, n);
    assert n in DerivedFlags(t) <==> n in m && MakeFlag(m[n]).Some?;
    if n in m {
      var k :| 0 <= k < |leaves| && leaves[k].name == n && m[n] == leaves[k]
               && forall j :: k < j < |leaves| ==> leaves[j].name != n;
      LastIndexUnique(leaves, n, k);
      assert n in DerivedFlags(t) ==> Some(DerivedFlags(t)[n]) == MakeFlag(leaves[k]);
    }
  }

  /** At most one index holds the last leaf named `n`. */
  lemma LastIndexUnique(leaves: seq<Field>, n: string, k: nat)
    requires k < |leaves| && leaves[k].name == n
    requires forall j :: k < j < |leaves| ==> leaves[j].name != n
    ensures forall i :: (0 <= i < |leaves| && leaves[i].name == n
                         && forall j :: i < j < |leaves| ==> leaves[j].name != n) ==> i == k
  {
  }

  /** What addFlagsFromStruct promises for the type `t`, as one predicate. */
  predicate FlagsAdded(flags: FlagSet, t: Option<Type>, r: Result<FlagSet>)
  {
    && (t.None? ==> r == Ok(flags))
    && (t.Some? && !t.value.StructType? ==> r == Err(NonStructType(t.value.name)))
    && (t.Some? && t.value.StructType? && (forall n :: n in DerivedFlags(t.value) ==> n !in flags) ==>
          r == Ok(flags + DerivedFlags(t.value)))
    && (t.Some? && t.value.StructType? && !(forall n :: n in DerivedFlags(t.value) ==> n !in flags) ==>
          r.Err? && r.error.FlagRedefined? && r.error.flag in flags && r.error.flag in DerivedFlags(t.value))
  }

  /** addFlagsFromStruct: nothing for a nil type; reflect's panic for a
      non-struct type; pflag's "flag redefined" panic when a derived flag is
      already defined (which one is reported depends on map order); otherwise
      the flag set extended with the derived flags. */
  method AddFlagsFromStruct(flags: FlagSet, t: Option<Type>) returns (r: Result<FlagSet>)
    ensures t.None? ==> r == Ok(flags)
    ensures t.Some? && !t.value.StructType? ==> r == Err(NonStructType(t.value.name))
    ensures t.Some? && t.value.StructType? && (forall n :: n in DerivedFlags(t.value) ==> n !in flags) ==>
              r == Ok(flags + DerivedFlags(t.value))
    ensures t.Some? && t.value.StructType? && !(forall n :: n in DerivedFlags(t.value) ==> n !in flags) ==>
              r.Err? && r.error.FlagRedefined? && r.error.flag in flags && r.error.flag in DerivedFlags(t.value)
  {
    if t.None? {
      return Ok(flags);
    }
    if !t.value.StructType? {
      return Err(NonStructType(t.value.name));
    }
    var fields := FlattenStructFields(t.value);
    var out := flags;
    var pending := fields.Keys;
    ghost var done: set<string> := {};
    while pending != {}
      invariant pending + done == fields.Keys && pending !! done
      invariant out == flags + FlagsFor(fields, done)
      invariant forall n :: n in FlagsFor(fields, done) ==> n !in flags
      decreases pending
    {
      var name :| name in pending;
      var field := fields[name];
      var help := field.help + " (" + field.typ.name + ")";
      FlagsForStep(fields, done, name);
      match field.typ {
        case StringType(_) =>
          if name in out {
            return Err(FlagRedefined(name));
          }
          UpdateUnion(flags, FlagsFor(fields, done), name, StringFlag(help, "", false));
          out := out[name := StringFlag(help, "", false)];
        case BoolType(_) =>
          if name in out {
            return Err(FlagRedefined(name));
          }
          UpdateUnion(flags, FlagsFor(fields, done), name, BoolFlag(help, false, false));
          out := out[name := BoolFlag(help, false, false)];
        case _ =>
      }
      pending := pending - {name};
      done := done + {name};
    }
    assert done == fields.Keys;
    return Ok(out);
  }

  // ---------------------------------------------------------------------
  // setStructFromFlags

  /** The new value of a leaf field: rewritten only when its flag was changed;
      a failed read still writes the getter's zero result. */
  function BindLeaf(f: Field, v: Value, flags: FlagSet): (r: Value)
    requires Conforms(v, f.typ) && !f.typ.StructType?
    ensures Conforms(r, f.typ)
    ensures !Changed(flags, f.name) ==> r == v
  {
    if !Changed(flags, f.name) then v
    else
      match f.typ
      case StringType(_) => StringValue(GetString(flags, f.name).0)
      case BoolType(_) => BoolValue(GetBool(flags, f.name).0)
      case OtherType(_) => v
  }

  /** The warnings logged for a leaf field. */
  function LeafWarnings(f: Field, flags: FlagSet): seq<Warning>
  {
    if !Changed(flags, f.name) then []
    else
      match f.typ
      case StringType(_) => if GetString(flags, f.name).1 then [] else [BadInput(f.name)]
      case BoolType(_) => if GetBool(flags, f.name).1 then [] else [BadInput(f.name)]
      case _ => [UnknownFlagType]
  }

  function WarningsOf(leaves: seq<Field>, flags: FlagSet): seq<Warning>
  {
    if leaves == [] then []
    else WarningsOf(leaves[..|leaves| - 1], flags) + LeafWarnings(leaves[|leaves| - 1], flags)
  }

  lemma {:induction false} WarningsOfAppend(a: seq<Field>, b: seq<Field>, flags: FlagSet)
    ensures WarningsOf(a + b, flags) == WarningsOf(a, flags) + WarningsOf(b, flags)
    decreases |b|
  {
    if b == [] {
      assert a + b == a;
    } else {
      var b' := b[..|b| - 1];
      var last := b[|b| - 1];
      assert (a + b)[..|a + b| - 1] == a + b';
      assert (a + b)[|a + b| - 1] == last;
      WarningsOfAppend(a, b', flags);
      assert WarningsOf(b, flags) == WarningsOf(b', flags) + LeafWarnings(last, flags);
      assert WarningsOf(a + b, flags) == WarningsOf(a + b', flags) + LeafWarnings(last, flags);
      Associative(WarningsOf(a, flags), WarningsOf(b', flags), LeafWarnings(last, flags));
    }
  }

  /** The struct value `v` of type `t` after binding: every leaf, nested ones
      included, bound against the same flat flag namespace. */
  function Bind(v: Value, t: Type, flags: FlagSet): (r: Value)
    requires t.StructType? && Conforms(v, t)
    ensures Conforms(r, t)
    decreases t, 1
  {
    StructValue(BindUpTo(v.fields, t, flags))
  }

  /** The bound values of a prefix `vals` of the fields of `t`. */
  function BindUpTo(vals: seq<Value>, t: Type, flags: FlagSet): (r: seq<Value>)
    requires t.StructType? && |vals| <= |t.fields|
    requires forall i :: 0 <= i < |vals| ==> Conforms(vals[i], t.fields[i].typ)
    ensures |r| == |vals|
    ensures forall i :: 0 <= i < |vals| ==> Conforms(r[i], t.fields[i].typ)
    decreases t, 0, |vals|
  {
    if vals == [] then []
    else
      var n := |vals| - 1;
      BindUpTo(vals[..n], t, flags) + [BindField(vals[n], t.fields[n], flags)]
  }

  function BindField(v: Value, f: Field, flags: FlagSet): (r: Value)
    requires Conforms(v, f.typ)
    ensures Conforms(r, f.typ)
    decreases f.typ, 2
  {
    if f.typ.StructType? then Bind(v, f.typ, flags) else BindLeaf(f, v, flags)
  }

  /** The body of setStructFromFlags for one leaf field: the switch on its kind. */
  method SetLeaf(f: Field, fv: Value, flags: FlagSet) returns (nv: Value, warnings: seq<Warning>)
    requires Conforms(fv, f.typ) && !f.typ.StructType?
    ensures nv == BindLeaf(f, fv, flags)
    ensures warnings == LeafWarnings(f, flags)
  {
    nv, warnings := fv, [];
    if Changed(flags, f.name) {
      match f.typ {
        case StringType(_) =>
          var (valStr, ok) := GetString(flags, f.name);
          if !ok {
            warnings := [BadInput(f.name)];
          }
          nv := StringValue(valStr);
        case BoolType(_) =>
          var (valBool, ok) := GetBool(flags, f.name);
          if !ok {
            warnings := [BadInput(f.name)];
          }
          nv := BoolValue(valBool);
        case OtherType(_) =>
          warnings := [UnknownFlagType];
      }
    }
  }

  /** setStructFromFlags: writes the fields of `v` one by one, recursing into
      struct fields. The value is returned rather than written through. */
  method SetStructFromFlags(v: Value, t: Type, flags: FlagSet) returns (r: Value, warnings: seq<Warning>)
    requires t.StructType? && Conforms(v, t)
    ensures r == Bind(v, t, flags)
    ensures warnings == WarningsOf(Leaves(t), flags)
    decreases t
  {
    var fvs := v.fields;
    warnings := [];
    for i := 0 to |t.fields|
      invariant |fvs| == |t.fields|
      invariant fvs[..i] == BindUpTo(v.fields[..i], t, flags)
      invariant forall k :: i <= k < |fvs| ==> fvs[k] == v.fields[k]
      invariant warnings == WarningsOf(LeavesUpTo(t, i), flags)
    {
      var f := t.fields[i];
      var fv := fvs[i];
      var nv, w;
      if f.typ.StructType? {
        nv, w := SetStructFromFlags(fv, f.typ, flags);
      } else {
        nv, w := SetLeaf(f, fv, flags);
        LeafStep(f, fv, flags, nv, w);
      }
      BindStep(v, t, flags, i, fvs, nv);
      WarningsStep(t, flags, i, warnings, w);
      fvs := fvs[i := nv];
      warnings := warnings + w;
    }
    assert v.fields[..|t.fields|] == v.fields;
    assert fvs[..|t.fields|] == fvs;
    r := StructValue(fvs);
  }

  /** One leaf field of the loop above, in terms of the per-field functions. */
  lemma LeafStep(f: Field, fv: Value, flags: FlagSet, nv: Value, w: seq<Warning>)
    requires Conforms(fv, f.typ) && !f.typ.StructType?
    requires nv == BindLeaf(f, fv, flags) && w == LeafWarnings(f, flags)
    ensures nv == BindField(fv, f, flags)
    ensures w == WarningsOf(FieldLeaves(f), flags)
  {
    assert FieldLeaves(f) == [f];
    assert [f][..0] == [];
  }

  /** Writing field `i` extends the bound prefix by one field. */
  lemma BindStep(v: Value, t: Type, flags: FlagSet, i: nat, fvs: seq<Value>, nv: Value)
    requires t.StructType? && Conforms(v, t) && i < |t.fields| == |fvs|
    requires fvs[..i] == BindUpTo(v.fields[..i], t, flags)
    requires nv == BindField(v.fields[i], t.fields[i], flags)
    ensures fvs[i := nv][..i + 1] == BindUpTo(v.fields[..i + 1], t, flags)
  {
    assert v.fields[..i + 1][..i] == v.fields[..i];
    assert fvs[i := nv][..i + 1] == fvs[..i] + [nv];
  }

  /** The warnings of field `i` extend those of the fields before it. */
  lemma WarningsStep(t: Type, flags: FlagSet, i: nat, warnings: seq<Warning>, w: seq<Warning>)
    requires t.StructType? && i < |t.fields|
    requires warnings == WarningsOf(LeavesUpTo(t, i), flags)
    requires w == WarningsOf(FieldLeaves(t.fields[i]), flags)
    ensures warnings + w == WarningsOf(LeavesUpTo(t, i + 1), flags)
  {
    WarningsOfAppend(LeavesUpTo(t, i), FieldLeaves(t.fields[i]), flags);
  }

  // ---------------------------------------------------------------------
  // Properties of binding

  /** Each leaf bound on its own: the reference the leafwise lemmas compare with. */
  function BindLeaves(fs: seq<Field>, vs: seq<Value>, flags: FlagSet): (r: seq<Value>)
    requires |fs| == |vs|
    requires forall k :: 0 <= k < |fs| ==> Conforms(vs[k], fs[k].typ) && !fs[k].typ.StructType?
    ensures |r| == |fs|
    ensures forall k :: 0 <= k < |fs| ==> r[k] == BindLeaf(fs[k], vs[k], flags)
  {
    seq(|fs|, k requires 0 <= k < |fs| => BindLeaf(fs[k], vs[k], flags))
  }

  /** Binding a struct binds each of its leaves, at any depth, against the
      flag of the leaf's own bare name, as if the struct were flat. */
  lemma {:induction false} BindLeafwise(v: Value, t: Type, flags: FlagSet)
    requires t.StructType? && Conforms(v, t)
    ensures LeafValues(Bind(v, t, flags), t) == BindLeaves(Leaves(t), LeafValues(v, t), flags)
    decreases t, 1
  {
    BindUpToLeafwise(v.fields, t, flags);
  }

  lemma {:induction false} BindUpToLeafwise(vals: seq<Value>, t: Type, flags: FlagSet)
    requires t.StructType? && |vals| <= |t.fields|
    requires forall i :: 0 <= i < |vals| ==> Conforms(vals[i], t.fields[i].typ)
    ensures LeafValuesUpTo(BindUpTo(vals, t, flags), t)
            == BindLeaves(LeavesUpTo(t, |vals|), LeafValuesUpTo(vals, t), flags)
    decreases t, 0, |vals|
  {
    if vals != [] {
      var n := |vals| - 1;
      var f := t.fields[n];
      var b := BindUpTo(vals, t, flags);
      BindUpToLeafwise(vals[..n], t, flags);
      BindFieldLeafwise(vals[n], f, flags);
      assert b[..n] == BindUpTo(vals[..n], t, flags);
      assert b[n] == BindField(vals[n], f, flags);
      var fs1, fs2 := LeavesUpTo(t, n), FieldLeaves(f);
      var vs1, vs2 := LeafValuesUpTo(vals[..n], t), FieldLeafValues(vals[n], f);
      assert LeavesUpTo(t, |vals|) == fs1 + fs2;
      assert LeafValuesUpTo(vals, t) == vs1 + vs2;
      assert LeafValuesUpTo(b, t) == LeafValuesUpTo(b[..n], t) + FieldLeafValues(b[n], f);
      BindLeavesAppend(fs1, fs2, vs1, vs2, flags);
    }
  }

  lemma {:induction false} BindFieldLeafwise(v: Value, f: Field, flags: FlagSet)
    requires Conforms(v, f.typ)
    ensures FieldLeafValues(BindField(v, f, flags), f) == BindLeaves(FieldLeaves(f), FieldLeafValues(v, f), flags)
    decreases f.typ, 2
  {
    if f.typ.StructType? {
      BindLeafwise(v, f.typ, flags);
    }
  }

  lemma BindLeavesAppend(fs1: seq<Field>, fs2: seq<Field>, vs1: seq<Value>, vs2: seq<Value>, flags: FlagSet)
    requires |fs1| == |vs1| && |fs2| == |vs2|
    requires forall k :: 0 <= k < |fs1| ==> Conforms(vs1[k], fs1[k].typ) && !fs1[k].typ.StructType?
    requires forall k :: 0 <= k < |fs2| ==> Conforms(vs2[k], fs2[k].typ) && !fs2[k].typ.StructType?
    ensures BindLeaves(fs1 + fs2, vs1 + vs2, flags) == BindLeaves(fs1, vs1, flags) + BindLeaves(fs2, vs2, flags)
  {
    var l := BindLeaves(fs1 + fs2, vs1 + vs2, flags);
    var r := BindLeaves(fs1, vs1, flags) + BindLeaves(fs2, vs2, flags);
    forall k | 0 <= k < |l| ensures l[k] == r[k] {
      if k >= |fs1| {
        assert (fs1 + fs2)[k] == fs2[k - |fs1|] && (vs1 + vs2)[k] == vs2[k - |fs1|];
      }
    }
  }

  /** Only changed flags are written: a leaf whose flag the user did not give
      keeps its prior value; a changed string or bool leaf receives the
      getter's result, "" or false when the flag has another type. */
  lemma OnlyChangedLeavesWritten(v: Value, t: Type, flags: FlagSet, k: nat)
    requires t.StructType? && Conforms(v, t) && k < |Leaves(t)|
    ensures var f := Leaves(t)[k];
            var before := LeafValues(v, t)[k];
            var after := LeafValues(Bind(v, t, flags), t)[k];
            && (!Changed(flags, f.name) ==> after == before)
            && (Changed(flags, f.name) && f.typ.StringType? ==> after == StringValue(GetString(flags, f.name).0))
            && (Changed(flags, f.name) && f.typ.BoolType? ==> after == BoolValue(GetBool(flags, f.name).0))
            && (f.typ.OtherType? ==> after == before)
  {
    BindLeafwise(v, t, flags);
  }

  /** When none of the leaves' flags was changed, binding leaves the whole
      value as it was. */
  lemma {:induction false} BindUnchanged(v: Value, t: Type, flags: FlagSet)
    requires t.StructType? && Conforms(v, t)
    requires forall f :: f in Leaves(t) ==> !Changed(flags, f.name)
    ensures Bind(v, t, flags) == v
    decreases t, 1
  {
    BindUpToUnchanged(v.fields, t, flags);
  }

  lemma {:induction false} BindUpToUnchanged(vals: seq<Value>, t: Type, flags: FlagSet)
    requires t.StructType? && |vals| <= |t.fields|
    requires forall i :: 0 <= i < |vals| ==> Conforms(vals[i], t.fields[i].typ)
    requires forall f :: f in LeavesUpTo(t, |vals|) ==> !Changed(flags, f.name)
    ensures BindUpTo(vals, t, flags) == vals
    decreases t, 0, |vals|
  {
    if vals != [] {
      var n := |vals| - 1;
      var f := t.fields[n];
      assert LeavesUpTo(t, |vals|) == LeavesUpTo(t, n) + FieldLeaves(f);
      BindUpToUnchanged(vals[..n], t, flags);
      BindFieldUnchanged(vals[n], f, flags);
      assert vals == vals[..n] + [vals[n]];
    }
  }

  lemma {:induction false} BindFieldUnchanged(v: Value, f: Field, flags: FlagSet)
    requires Conforms(v, f.typ)
    requires forall g :: g in FieldLeaves(f) ==> !Changed(flags, g.name)
    ensures BindField(v, f, flags) == v
    decreases f.typ, 2
  {
    if f.typ.StructType? {
      BindUnchanged(v, f.typ, flags);
    } else {
      assert f in FieldLeaves(f);
    }
  }

  /** The user giving `--n x` on the command line, for a string flag `n`
      that was not given before: every string leaf named `n` receives `x`, a
      bool leaf named `n` receives false (the read fails), and every other
      leaf is bound as before. */
  lemma SetStringFlagReachesLeaves(v: Value, t: Type, flags: FlagSet, n: string, x: string, k: nat)
    requires t.StructType? && Conforms(v, t) && k < |Leaves(t)|
    requires n in flags && flags[n].StringFlag?
    ensures var given := flags[n := StringFlag(flags[n].usage, x, true)];
            var f := Leaves(t)[k];
            var after := LeafValues(Bind(v, t, given), t)[k];
            && (f.name == n && f.typ.StringType? ==> after == StringValue(x))
            && (f.name == n && f.typ.BoolType? ==> after == BoolValue(false))
            && (f.name != n ==> after == LeafValues(Bind(v, t, flags), t)[k])
  {
    var given := flags[n := StringFlag(flags[n].usage, x, true)];
    BindLeafwise(v, t, given);
    BindLeafwise(v, t, flags);
  }
}

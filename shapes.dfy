/** What the core learns by reflection, as explicit values: a Go type as a
    `Type` tree (a struct's fields in declaration order, each with its `help`
    struct tag), and a Go value of such a type as a `Value` tree. */
module Shapes {

  /** A Go type, by `Kind()`: string and bool kinds, structs, and every other
      kind (interfaces such as `modules.Credentials`, numbers, ...), each with
      its `Name()`. */
  datatype Type =
    | StringType(name: string)
    | BoolType(name: string)
    | StructType(name: string, fields: seq<Field>)
    | OtherType(name: string)

  /** A struct field: its `Name`, its `help:"..."` tag ("" when absent) and its type. */
  datatype Field = Field(name: string, help: string, typ: Type)

  /** A Go value; `Opaque` stands for values of the kinds the binder has no case for. */
  datatype Value =
    | StringValue(s: string)
    | BoolValue(b: bool)
    | StructValue(fields: seq<Value>)
    | Opaque(token: nat)

  predicate Conforms(v: Value, t: Type)
    decreases t
  {
    match t
    case StringType(_) => v.StringValue?
    case BoolType(_) => v.BoolValue?
    case OtherType(_) => v.Opaque?
    case StructType(_, fs) =>
      && v.StructValue?
      && |v.fields| == |fs|
      && forall i :: 0 <= i < |fs| ==> Conforms(v.fields[i], fs[i].typ)
  }

  /** reflect.New(t).Elem(): the zero value of `t`. */
  function Zero(t: Type): (r: Value)
    ensures Conforms(r, t)
    decreases t
  {
    match t
    case StringType(_) => StringValue("")
    case BoolType(_) => BoolValue(false)
    case OtherType(_) => Opaque(0)
    case StructType(_, fs) => StructValue(seq(|fs|, i requires 0 <= i < |fs| => Zero(fs[i].typ)))
  }

  /** The non-struct fields of a struct type in depth-first declaration order,
      struct-kind fields being replaced by their own leaves. */
  function Leaves(t: Type): (r: seq<Field>)
    requires t.StructType?
    ensures forall k :: 0 <= k < |r| ==> !r[k].typ.StructType?
    decreases t, 1
  {
    LeavesUpTo(t, |t.fields|)
  }

  /** The leaves of the first `i` fields of `t`. */
  function LeavesUpTo(t: Type, i: nat): (r: seq<Field>)
    requires t.StructType? && i <= |t.fields|
    ensures forall k :: 0 <= k < |r| ==> !r[k].typ.StructType?
    decreases t, 0, i
  {
    if i == 0 then [] else LeavesUpTo(t, i - 1) + FieldLeaves(t.fields[i - 1])
  }

  function FieldLeaves(f: Field): (r: seq<Field>)
    ensures forall k :: 0 <= k < |r| ==> !r[k].typ.StructType?
    decreases f.typ, 2
  {
    if f.typ.StructType? then Leaves(f.typ) else [f]
  }

  /** The values at the leaves of `v`, aligned with `Leaves(t)`. */
  function LeafValues(v: Value, t: Type): (r: seq<Value>)
    requires t.StructType? && Conforms(v, t)
    ensures |r| == |Leaves(t)|
    ensures forall k :: 0 <= k < |r| ==> Conforms(r[k], Leaves(t)[k].typ)
    decreases t, 1
  {
    LeafValuesUpTo(v.fields, t)
  }

  /** The leaf values of a prefix `vals` of a struct value of type `t`. */
  function LeafValuesUpTo(vals: seq<Value>, t: Type): (r: seq<Value>)
    requires t.StructType? && |vals| <= |t.fields|
    requires forall i :: 0 <= i < |vals| ==> Conforms(vals[i], t.fields[i].typ)
    ensures |r| == |LeavesUpTo(t, |vals|)|
    ensures forall k :: 0 <= k < |r| ==> Conforms(r[k], LeavesUpTo(t, |vals|)[k].typ)
    decreases t, 0, |vals|
  {
    if vals == [] then []
    else
      var n := |vals| - 1;
      var a := LeafValuesUpTo(vals[..n], t);
      var b := FieldLeafValues(vals[n], t.fields[n]);
      assert LeavesUpTo(t, |vals|) == LeavesUpTo(t, n) + FieldLeaves(t.fields[n]);
      a + b
  }

  function FieldLeafValues(v: Value, f: Field): (r: seq<Value>)
    requires Conforms(v, f.typ)
    ensures |r| == |FieldLeaves(f)|
    ensures forall k :: 0 <= k < |r| ==> Conforms(r[k], FieldLeaves(f)[k].typ)
    decreases f.typ, 2
  {
    if f.typ.StructType? then LeafValues(v, f.typ) else [v]
  }

  /** The zero value of each field of `fs`. */
  function Zeroes(fs: seq<Field>): (r: seq<Value>)
    ensures |r| == |fs|
    ensures forall k :: 0 <= k < |fs| ==> r[k] == Zero(fs[k].typ)
  {
    seq(|fs|, k requires 0 <= k < |fs| => Zero(fs[k].typ))
  }

  lemma ZeroesAppend(a: seq<Field>, b: seq<Field>)
    ensures Zeroes(a + b) == Zeroes(a) + Zeroes(b)
  {
  }

  /** Every leaf of a zero struct value holds the zero value of its own type. */
  lemma {:induction false} ZeroLeafValues(t: Type)
    requires t.StructType?
    ensures LeafValues(Zero(t), t) == Zeroes(Leaves(t))
    decreases t, 1
  {
    ZeroLeafValuesUpTo(t, |t.fields|);
    assert Zero(t).fields[..|t.fields|] == Zero(t).fields;
  }

  lemma {:induction false} ZeroLeafValuesUpTo(t: Type, i: nat)
    requires t.StructType? && i <= |t.fields|
    ensures LeafValuesUpTo(Zero(t).fields[..i], t) == Zeroes(LeavesUpTo(t, i))
    decreases t, 0, i
  {
    if i > 0 {
      var vals := Zero(t).fields[..i];
      assert vals[..i - 1] == Zero(t).fields[..i - 1];
      ZeroLeafValuesUpTo(t, i - 1);
      ZeroFieldLeafValues(t.fields[i - 1]);
      ZeroesAppend(LeavesUpTo(t, i - 1), FieldLeaves(t.fields[i - 1]));
    }
  }

  lemma {:induction false} ZeroFieldLeafValues(f: Field)
    ensures FieldLeafValues(Zero(f.typ), f) == Zeroes(FieldLeaves(f))
    decreases f.typ, 2
  {
    if f.typ.StructType? {
      ZeroLeafValues(f.typ);
    }
  }
}

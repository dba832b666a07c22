/** internal/core/helper.go: the text `--options` prints for a module. The
    strings.Builder is the string value threaded through the calls. */
module Help {
  import opened Text
  import opened Shapes
  import opened Generic
  import opened Registry
  import Smb

  /** The line of one leaf field: " - <name>: <help tag> (<type name>)\n". */
  function LeafLine(f: Field): string
  {
    " - " + f.name + ": " + f.help + " (" + f.typ.name + ")\n"
  }

  /** The lines of a sequence of leaves, one each, in order. */
  function LeafLines(leaves: seq<Field>): string
  {
    if leaves == [] then "" else LeafLines(leaves[..|leaves| - 1]) + LeafLine(leaves[|leaves| - 1])
  }

  lemma {:induction false} LeafLinesAppend(a: seq<Field>, b: seq<Field>)
    ensures LeafLines(a + b) == LeafLines(a) + LeafLines(b)
    decreases |b|
  {
    if b == [] {
      assert a + b == a;
    } else {
      var b' := b[..|b| - 1];
      var last := b[|b| - 1];
      assert (a + b)[..|a + b| - 1] == a + b';
      assert (a + b)[|a + b| - 1] == last;
      LeafLinesAppend(a, b');
      assert LeafLines(b) == LeafLines(b') + LeafLine(last);
      assert LeafLines(a + b) == LeafLines(a + b') + LeafLine(last);
      Associative(LeafLines(a), LeafLines(b'), LeafLine(last));
    }
  }

  /** formatStructFields: appends the line of every leaf of `t`, nested ones
      included, to the builder contents `sb`; struct fields get no line. */
  method FormatStructFields(t: Type, sb: string) returns (out: string)
    requires t.StructType?
    ensures out == sb + LeafLines(Leaves(t))
    decreases t
  {
    out := sb;
    for i := 0 to |t.fields|
      invariant out == sb + LeafLines(LeavesUpTo(t, i))
    {
      var f := t.fields[i];
      ghost var done := LeafLines(LeavesUpTo(t, i));
      ghost var added := LeafLines(FieldLeaves(f));
      LeafLinesAppend(LeavesUpTo(t, i), FieldLeaves(f));
      assert LeafLines(LeavesUpTo(t, i + 1)) == done + added;
      if f.typ.StructType? {
        out := FormatStructFields(f.typ, out);
      } else {
        assert FieldLeaves(f) == [f] && [f][..0] == [];
        assert added == LeafLine(f);
        var fieldName := f.name;
        var tagHelp := f.help;
        out := out + (" - " + fieldName + ": " + tagHelp + " (" + f.typ.name + ")\n");
      }
      Associative(sb, done, added);
    }
  }

  /** The four header lines. */
  function Header(m: ModuleMetadata): string
  {
    ("Module: " + m.uniqueName + "\n")
    + ("Description: " + m.presentMessages + "\n")
    + ("Tags: " + Join(m.labels, ", ") + "\n")
    + "Arguments:\n"
  }

  /** GenerateHelpMessage: the header, then the leaf lines of the Input type,
      or a fixed note when there is no Input field or it is not a struct. */
  method GenerateHelpMessage(entry: ModuleEntry) returns (msg: string)
    ensures entry.inputType.None? || !entry.inputType.value.StructType? ==>
              msg == Header(entry.metadata) + "  (no input fields found)\n"
    ensures entry.inputType.Some? && entry.inputType.value.StructType? ==>
              msg == Header(entry.metadata) + LeafLines(Leaves(entry.inputType.value))
  {
    var sb := "";
    ghost var moduleLine := "Module: " + entry.metadata.uniqueName + "\n";
    sb := sb + ("Module: " + entry.metadata.uniqueName + "\n");
    assert sb == moduleLine;
    sb := sb + ("Description: " + entry.metadata.presentMessages + "\n");
    sb := sb + ("Tags: " + Join(entry.metadata.labels, ", ") + "\n");
    sb := sb + "Arguments:\n";
    assert sb == Header(entry.metadata);
    if entry.inputType.None? || !entry.inputType.value.StructType? {
      sb := sb + "  (no input fields found)\n";
      return sb;
    }
    msg := FormatStructFields(entry.inputType.value, sb);
  }

  /** The leaves of the shipped module's input: the two fields of the nested
      Targets struct, then the Credentials interface. */
  lemma SmbLeaves()
    ensures Leaves(Smb.ModuleInputType) == [
              Field("Host", "Host of the target (e.g., IP, hostname)", StringType("string")),
              Field("HostFile", "Path to a file that contains multiple hosts", StringType("string")),
              Field("Credentials", "", OtherType("Credentials"))]
  {
    var t := Smb.ModuleInputType;
    var tt := t.fields[0].typ;
    assert tt == Targets.TargetsType;
    assert FieldLeaves(tt.fields[0]) == [tt.fields[0]];
    assert FieldLeaves(tt.fields[1]) == [tt.fields[1]];
    assert LeavesUpTo(tt, 1) == [] + [tt.fields[0]];
    assert LeavesUpTo(tt, 2) == [tt.fields[0]] + [tt.fields[1]];
    assert FieldLeaves(t.fields[0]) == Leaves(tt);
    assert LeavesUpTo(t, 1) == [] + Leaves(tt);
    assert FieldLeaves(t.fields[1]) == [t.fields[1]];
    assert LeavesUpTo(t, 2) == Leaves(tt) + [t.fields[1]];
  }

  /** The arguments section of the shipped module: one line per leaf, the
      interface leaf included. */
  lemma SmbArgumentLines()
    ensures LeafLines(Leaves(Smb.ModuleInputType)) ==
              LeafLine(Targets.TargetsType.fields[0])
              + LeafLine(Targets.TargetsType.fields[1])
              + LeafLine(Smb.ModuleInputType.fields[1])
  {
    SmbLeaves();
    var leaves := Leaves(Smb.ModuleInputType);
    LeafLinesAppend([leaves[0]], [leaves[1]]);
    LeafLinesAppend([leaves[0], leaves[1]], [leaves[2]]);
    assert [leaves[0], leaves[1]] + [leaves[2]] == leaves;
    assert [leaves[0]] + [leaves[1]] == [leaves[0], leaves[1]];
    OneLine(leaves[0]);
    OneLine(leaves[1]);
    OneLine(leaves[2]);
  }

  /** An empty help tag is printed as nothing: there is no fallback text. */
  lemma EmptyHelpNoFallback(f: Field)
    requires f.help == ""
    ensures LeafLine(f) == " - " + f.name + ":  (" + f.typ.name + ")\n"
  {
    assert " - " + f.name + ": " + "" == " - " + f.name + ": ";
  }

  lemma OneLine(f: Field)
    ensures LeafLines([f]) == LeafLine(f)
  {
    assert [f][..0] == [];
  }

  /** Two leaves with the same name both get a line. */
  lemma DuplicateLeavesListed(f: Field, g: Field)
    requires f.name == g.name && !f.typ.StructType? && !g.typ.StructType?
    ensures LeafLines(Leaves(StructType("S", [f, g]))) == LeafLine(f) + LeafLine(g)
  {
    var t := StructType("S", [f, g]);
    assert FieldLeaves(f) == [f] && FieldLeaves(g) == [g];
    assert LeavesUpTo(t, 1) == [] + [f];
    assert LeavesUpTo(t, 2) == [f] + [g];
    assert Leaves(t) == [f, g];
    assert [f, g][..1] == [f] && [f][..0] == [];
    assert LeafLines([f]) == "" + LeafLine(f) == LeafLine(f);
    assert LeafLines([f, g]) == LeafLines([f]) + LeafLine(g);
  }
}

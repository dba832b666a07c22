/** internal/core/tags.go: selecting the modules whose labels match the tags
    given on the command line. An entry is appended once per matching label,
    so an entry whose labels match twice is selected twice. */
module Tags {
  import opened Errors
  import opened Text
  import opened Generic
  import opened Registry

  /** Some requested tag equals `t` under case folding. */
  predicate MatchesAny(t: string, tags: seq<string>)
  {
    exists k :: 0 <= k < |tags| && EqualFold(t, tags[k])
  }

  /** How many of `labels` match some tag: the copies of their entry the filter appends. */
  function MatchCount(labels: seq<string>, tags: seq<string>): nat
  {
    if labels == [] then 0
    else MatchCount(labels[..|labels| - 1], tags) + (if MatchesAny(labels[|labels| - 1], tags) then 1 else 0)
  }

  /** `n` copies of `e`. */
  function Repeat(e: ModuleEntry, n: nat): (r: seq<ModuleEntry>)
    ensures |r| == n
    ensures forall k :: 0 <= k < n ==> r[k] == e
  {
    if n == 0 then [] else Repeat(e, n - 1) + [e]
  }

  /** Each entry of `all`, in order, repeated once per matching label. */
  function Expand(all: seq<ModuleEntry>, tags: seq<string>): seq<ModuleEntry>
  {
    if all == [] then []
    else
      var e := all[|all| - 1];
      Expand(all[..|all| - 1], tags) + Repeat(e, MatchCount(e.metadata.labels, tags))
  }

  /** What FilterModulesByTags returns: the registry itself when no tag is given. */
  function Filtered(all: seq<ModuleEntry>, tags: seq<string>): seq<ModuleEntry>
  {
    if |tags| == 0 then all else Expand(all, tags)
  }

  /** FilterModulesByTags, over the registry `all`. */
  method FilterModulesByTags(all: seq<ModuleEntry>, tags: seq<string>) returns (result: seq<ModuleEntry>)
    ensures result == Filtered(all, tags)
  {
    if |tags| == 0 {
      return all;
    }
    result := [];
    for i := 0 to |all|
      invariant result == Expand(all[..i], tags)
    {
      assert all[..i + 1][..i] == all[..i];
      var entry := all[i];
      var labels := entry.metadata.labels;
      ghost var before := result;
      for j := 0 to |labels|
        invariant result == before + Repeat(entry, MatchCount(labels[..j], tags))
      {
        assert labels[..j + 1][..j] == labels[..j];
        var t := labels[j];
        ghost var count := MatchCount(labels[..j], tags);
        for k := 0 to |tags|
          invariant result == before + Repeat(entry, count)
          invariant forall q :: 0 <= q < k ==> !EqualFold(t, tags[q])
        {
          if EqualFold(t, tags[k]) {
            result := result + [entry];
            assert MatchesAny(t, tags);
            break;
          }
        }
        assert result == before + Repeat(entry, MatchCount(labels[..j + 1], tags));
      }
      assert labels[..|labels|] == labels;
    }
    assert all[..|all|] == all;
  }

  lemma {:induction false} RepeatMembers(e: ModuleEntry, n: nat, x: ModuleEntry)
    ensures x in Repeat(e, n) <==> n > 0 && x == e
  {
    if n > 0 {
      assert Repeat(e, n)[0] == e;
    }
  }

  /** An entry is appended at least once exactly when one of its labels matches. */
  lemma {:induction false} MatchCountPositive(labels: seq<string>, tags: seq<string>)
    ensures MatchCount(labels, tags) > 0 <==> exists j :: 0 <= j < |labels| && MatchesAny(labels[j], tags)
  {
    if labels != [] {
      var p := labels[..|labels| - 1];
      MatchCountPositive(p, tags);
      if MatchCount(p, tags) > 0 {
        var j :| 0 <= j < |p| && MatchesAny(p[j], tags);
        assert labels[j] == p[j];
      }
      if exists j :: 0 <= j < |labels| && MatchesAny(labels[j], tags) {
        var j :| 0 <= j < |labels| && MatchesAny(labels[j], tags);
        if j < |p| {
          assert p[j] == labels[j];
        }
      }
    }
  }

  /** An entry is selected exactly when it is in the registry and one of its
      labels matches a tag; nothing without a matching label appears. */
  lemma {:induction false} ExpandMembers(all: seq<ModuleEntry>, tags: seq<string>, x: ModuleEntry)
    ensures x in Expand(all, tags) <==>
              x in all && exists j :: 0 <= j < |x.metadata.labels| && MatchesAny(x.metadata.labels[j], tags)
  {
    if all != [] {
      var p := all[..|all| - 1];
      var e := all[|all| - 1];
      ExpandMembers(p, tags, x);
      RepeatMembers(e, MatchCount(e.metadata.labels, tags), x);
      MatchCountPositive(e.metadata.labels, tags);
      assert all == p + [e];
    }
  }

  /** With at least one tag, the filter keeps exactly the matching entries. */
  lemma FilteredMembers(all: seq<ModuleEntry>, tags: seq<string>, x: ModuleEntry)
    requires |tags| > 0
    ensures x in Filtered(all, tags) <==>
              x in all && exists j :: 0 <= j < |x.metadata.labels| && MatchesAny(x.metadata.labels[j], tags)
  {
    ExpandMembers(all, tags, x);
  }

  /** Filtering a registry in two parts gives the two results in order. */
  lemma {:induction false} ExpandAppend(a: seq<ModuleEntry>, b: seq<ModuleEntry>, tags: seq<string>)
    ensures Expand(a + b, tags) == Expand(a, tags) + Expand(b, tags)
    decreases |b|
  {
    if b == [] {
      assert a + b == a;
    } else {
      var b' := b[..|b| - 1];
      assert (a + b)[..|a + b| - 1] == a + b';
      ExpandAppend(a, b', tags);
    }
  }

  /** Registry order and multiplicity: the result is the result for the
      entries before `i`, then MatchCount copies of entry `i`, then the result
      for the entries after it. */
  lemma ExpandBlocks(all: seq<ModuleEntry>, tags: seq<string>, i: nat)
    requires i < |all|
    ensures Expand(all, tags) ==
              Expand(all[..i], tags)
              + Repeat(all[i], MatchCount(all[i].metadata.labels, tags))
              + Expand(all[i + 1..], tags)
  {
    assert all == all[..i] + [all[i]] + all[i + 1..];
    ExpandAppend(all[..i] + [all[i]], all[i + 1..], tags);
    ExpandAppend(all[..i], [all[i]], tags);
    assert [all[i]][..0] == [];
  }

  /** The registry index each element of the result was copied from. */
  function Origins(all: seq<ModuleEntry>, tags: seq<string>): seq<nat>
  {
    if all == [] then []
    else
      var n := |all| - 1;
      Origins(all[..n], tags) + seq(MatchCount(all[n].metadata.labels, tags), _ => n)
  }

  /** Every element of the result is a copy of a registry entry, and the
      entries it copies come in nondecreasing registry order. */
  lemma {:induction false} ExpandOrigins(all: seq<ModuleEntry>, tags: seq<string>)
    ensures |Origins(all, tags)| == |Expand(all, tags)|
    ensures forall k :: 0 <= k < |Origins(all, tags)| ==>
              Origins(all, tags)[k] < |all| && Expand(all, tags)[k] == all[Origins(all, tags)[k]]
    ensures forall k, m :: 0 <= k < m < |Origins(all, tags)| ==> Origins(all, tags)[k] <= Origins(all, tags)[m]
  {
    if all != [] {
      var n := |all| - 1;
      var p := all[..n];
      ExpandOrigins(p, tags);
      var o := Origins(p, tags);
      var r := Expand(p, tags);
      var c := MatchCount(all[n].metadata.labels, tags);
      assert Origins(all, tags) == o + seq(c, _ => n);
      assert Expand(all, tags) == r + Repeat(all[n], c);
      forall k | 0 <= k < |o| ensures o[k] < |all| && r[k] == all[o[k]] {
        assert p[o[k]] == all[o[k]];
      }
    }
  }

  /** An entry labelled ["SMB", "smb"] is selected twice by the tag "smb". */
  lemma SelectedOncePerMatchingLabel()
    ensures var e := ModuleEntry(ModuleMetadata("m", "", ["SMB", "smb"]), None);
            Filtered([e], ["smb"]) == [e, e]
  {
    var e := ModuleEntry(ModuleMetadata("m", "", ["SMB", "smb"]), None);
    var labels := ["SMB", "smb"];
    var tags := ["smb"];
    assert Lower("SMB") == "smb";
    assert EqualFold(labels[0], tags[0]) && EqualFold(labels[1], tags[0]);
    assert MatchesAny(labels[0], tags) && MatchesAny(labels[1], tags);
    assert labels[..1][..0] == [];
    assert labels[..2] == labels;
    assert MatchCount(labels[..1], ["smb"]) == 1;
    assert MatchCount(labels, ["smb"]) == 2;
    assert [e][..0] == [];
  }

  /** The shipped registry: the tag "smb" selects the SMB module once. */
  lemma SmbTagSelectsRegistry()
    ensures Filtered(AllModules, ["smb"]) == AllModules
  {
    var e := AllModules[0];
    assert e.metadata.labels == ["SMB"];
    var tags := ["smb"];
    assert Lower("SMB") == "smb";
    assert EqualFold(e.metadata.labels[0], tags[0]);
    assert MatchesAny(e.metadata.labels[0], tags);
    assert e.metadata.labels[..0] == [];
    assert MatchCount(e.metadata.labels, tags) == 1;
    assert AllModules[..0] == [];
    assert Expand(AllModules, tags) == Expand([], tags) + Repeat(e, 1);
  }
}

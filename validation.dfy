/** internal/core/validation.go: the start-up check that module names are
    unique, exactly and under case folding. Go's map iteration order, which
    decides which duplicate is reported, is a nondeterministic choice here. */
module Validation {
  import opened Errors
  import opened Text
  import opened Registry

  function Names(all: seq<ModuleEntry>): (r: seq<string>)
    ensures |r| == |all|
    ensures forall i :: 0 <= i < |all| ==> r[i] == all[i].metadata.uniqueName
  {
    seq(|all|, i requires 0 <= i < |all| => all[i].metadata.uniqueName)
  }

  /** How many times `n` occurs in `s`. */
  function Count(s: seq<string>, n: string): nat
  {
    if s == [] then 0
    else Count(s[..|s| - 1], n) + (if s[|s| - 1] == n then 1 else 0)
  }

  /** The elements of `s` whose lower-case form is `lower`, in order. */
  function Variants(s: seq<string>, lower: string): seq<string>
  {
    if s == [] then []
    else Variants(s[..|s| - 1], lower) + (if Lower(s[|s| - 1]) == lower then [s[|s| - 1]] else [])
  }

  /** No two names are equal once lower-cased. */
  ghost predicate LowerDistinct(s: seq<string>)
  {
    forall i, j :: 0 <= i < j < |s| ==> Lower(s[i]) != Lower(s[j])
  }

  lemma {:induction false} VariantsMembers(s: seq<string>, lower: string)
    ensures forall x :: x in Variants(s, lower) <==> x in s && Lower(x) == lower
  {
    if s != [] {
      var p := s[..|s| - 1];
      VariantsMembers(p, lower);
      assert s == p + [s[|s| - 1]];
    }
  }

  lemma {:induction false} NoVariants(s: seq<string>, lower: string)
    requires forall x :: x in s ==> Lower(x) != lower
    ensures Variants(s, lower) == []
  {
    if s != [] {
      var p := s[..|s| - 1];
      assert forall x :: x in p ==> x in s;
      NoVariants(p, lower);
    }
  }

  /** The `names` counter map after the first loop over `s`. */
  function CountMap(s: seq<string>): map<string, nat>
  {
    if s == [] then map[]
    else
      var m := CountMap(s[..|s| - 1]);
      var name := s[|s| - 1];
      m[name := (if name in m then m[name] else 0) + 1]
  }

  /** The `nameLowerMap` after the first loop over `s`. */
  function VariantMap(s: seq<string>): map<string, seq<string>>
  {
    if s == [] then map[]
    else
      var m := VariantMap(s[..|s| - 1]);
      var lower := Lower(s[|s| - 1]);
      m[lower := (if lower in m then m[lower] else []) + [s[|s| - 1]]]
  }

  lemma {:induction false} CountMapCounts(s: seq<string>)
    ensures forall n :: n in CountMap(s) ==> CountMap(s)[n] == Count(s, n)
    ensures forall n :: n !in CountMap(s) ==> Count(s, n) == 0
  {
    if s != [] {
      CountMapCounts(s[..|s| - 1]);
    }
  }

  lemma {:induction false} VariantMapVariants(s: seq<string>)
    ensures forall l :: l in VariantMap(s) ==> VariantMap(s)[l] == Variants(s, l)
    ensures forall l :: l !in VariantMap(s) ==> Variants(s, l) == []
  {
    if s != [] {
      VariantMapVariants(s[..|s| - 1]);
    }
  }

  lemma {:induction false} CountPositive(s: seq<string>, n: string)
    ensures Count(s, n) > 0 ==> n in s
  {
    if s != [] {
      var p := s[..|s| - 1];
      CountPositive(p, n);
      assert s == p + [s[|s| - 1]];
    }
  }

  /** An exact duplicate is also a case-insensitive one. */
  lemma {:induction false} CountAtMostVariants(s: seq<string>, n: string)
    ensures Count(s, n) <= |Variants(s, Lower(n))|
  {
    if s != [] {
      CountAtMostVariants(s[..|s| - 1], n);
    }
  }

  lemma {:induction false} DistinctFewVariants(s: seq<string>, lower: string)
    requires LowerDistinct(s)
    ensures |Variants(s, lower)| <= 1
  {
    if s != [] {
      var p := s[..|s| - 1];
      assert LowerDistinct(p) by {
        forall i, j | 0 <= i < j < |p| ensures Lower(p[i]) != Lower(p[j]) {
          assert p[i] == s[i] && p[j] == s[j];
        }
      }
      DistinctFewVariants(p, lower);
      if Lower(s[|s| - 1]) == lower {
        forall x | x in p ensures Lower(x) != lower {
          var i :| 0 <= i < |p| && p[i] == x;
          assert s[i] == x;
        }
        NoVariants(p, lower);
      }
    }
  }

  lemma {:induction false} CollisionManyVariants(s: seq<string>, i: nat, j: nat)
    requires i < j < |s| && Lower(s[i]) == Lower(s[j])
    ensures |Variants(s, Lower(s[i]))| >= 2
  {
    var p := s[..|s| - 1];
    var l := Lower(s[i]);
    if j == |s| - 1 {
      VariantsMembers(p, l);
      assert p[i] in Variants(p, l);
    } else {
      assert p[i] == s[i] && p[j] == s[j];
      CollisionManyVariants(p, i, j);
    }
  }

  /** Names are case-insensitively distinct exactly when every lower-case
      form has at most one variant. */
  lemma DistinctIffFewVariants(s: seq<string>)
    ensures LowerDistinct(s) <==> forall l :: |Variants(s, l)| <= 1
  {
    if LowerDistinct(s) {
      forall l ensures |Variants(s, l)| <= 1 { DistinctFewVariants(s, l); }
    } else {
      var i, j :| 0 <= i < j < |s| && Lower(s[i]) == Lower(s[j]);
      CollisionManyVariants(s, i, j);
    }
  }

  lemma MapsStep(s: seq<string>, i: nat)
    requires i < |s|
    ensures var m := CountMap(s[..i]);
            CountMap(s[..i + 1]) == m[s[i] := (if s[i] in m then m[s[i]] else 0) + 1]
    ensures var m := VariantMap(s[..i]);
            var lower := Lower(s[i]);
            VariantMap(s[..i + 1]) == m[lower := (if lower in m then m[lower] else []) + [s[i]]]
  {
    assert s[..i + 1][..i] == s[..i];
  }

  /** ValidateModules: None when the names are distinct under ToLower; else an
      exact duplicate with its count if there is one, else the variants of a
      case-insensitive duplicate in registry order. */
  method ValidateModules(all: seq<ModuleEntry>) returns (err: Option<Error>)
    ensures err.None? <==> LowerDistinct(Names(all))
    ensures err.Some? ==> err.value.DuplicateExact? || err.value.DuplicateCaseInsensitive?
    ensures (exists n :: Count(Names(all), n) > 1) ==> err.Some? && err.value.DuplicateExact?
    ensures err.Some? && err.value.DuplicateExact? ==>
              err.value.count == Count(Names(all), err.value.name) && err.value.count > 1
    ensures err.Some? && err.value.DuplicateCaseInsensitive? ==>
              && (forall n :: Count(Names(all), n) <= 1)
              && err.value.variants == Variants(Names(all), err.value.lower)
              && |err.value.variants| > 1
  {
    var ns := Names(all);
    var names: map<string, nat> := map[];
    var nameLowerMap: map<string, seq<string>> := map[];
    for i := 0 to |all|
      invariant names == CountMap(ns[..i])
      invariant nameLowerMap == VariantMap(ns[..i])
    {
      var name := all[i].metadata.uniqueName;
      var lower := Lower(name);
      MapsStep(ns, i);
      names := names[name := (if name in names then names[name] else 0) + 1];
      nameLowerMap := nameLowerMap[lower := (if lower in nameLowerMap then nameLowerMap[lower] else []) + [name]];
    }
    assert ns[..|all|] == ns;

    var pending := names.Keys;
    while pending != {}
      invariant pending <= names.Keys
      invariant forall n :: n in names && n !in pending ==> names[n] <= 1
      decreases pending
    {
      var name :| name in pending;
      if names[name] > 1 {
        ExactDuplicateFound(ns, name);
        return Some(DuplicateExact(name, names[name]));
      }
      pending := pending - {name};
    }
    NoExactDuplicate(ns);

    var lowers := nameLowerMap.Keys;
    while lowers != {}
      invariant lowers <= nameLowerMap.Keys
      invariant forall l :: l in nameLowerMap && l !in lowers ==> |nameLowerMap[l]| <= 1
      decreases lowers
    {
      var lower :| lower in lowers;
      if |nameLowerMap[lower]| > 1 {
        CaseDuplicateFound(ns, lower);
        return Some(DuplicateCaseInsensitive(lower, nameLowerMap[lower]));
      }
      lowers := lowers - {lower};
    }
    NoCaseDuplicate(ns);
    return None;
  }

  /** A counter above one is an exact duplicate, and so a case-insensitive one too. */
  lemma ExactDuplicateFound(s: seq<string>, n: string)
    requires n in CountMap(s) && CountMap(s)[n] > 1
    ensures CountMap(s)[n] == Count(s, n) && !LowerDistinct(s)
  {
    CountMapCounts(s);
    CountAtMostVariants(s, n);
    DistinctIffFewVariants(s);
  }

  /** Counters of at most one mean no exact duplicate. */
  lemma NoExactDuplicate(s: seq<string>)
    requires forall n :: n in CountMap(s) ==> CountMap(s)[n] <= 1
    ensures forall n :: Count(s, n) <= 1
  {
    CountMapCounts(s);
  }

  /** A lower-case key with several names lists the variants of a case-insensitive duplicate. */
  lemma CaseDuplicateFound(s: seq<string>, lower: string)
    requires lower in VariantMap(s) && |VariantMap(s)[lower]| > 1
    ensures VariantMap(s)[lower] == Variants(s, lower) && !LowerDistinct(s)
  {
    VariantMapVariants(s);
    DistinctIffFewVariants(s);
  }

  /** Lower-case keys with at most one name each mean the names are distinct under ToLower. */
  lemma NoCaseDuplicate(s: seq<string>)
    requires forall l :: l in VariantMap(s) ==> |VariantMap(s)[l]| <= 1
    ensures LowerDistinct(s)
  {
    VariantMapVariants(s);
    DistinctIffFewVariants(s);
  }

  /** InitializeModules: the start-up entry point returns ValidateModules' verdict. */
  method InitializeModules(all: seq<ModuleEntry>) returns (err: Option<Error>)
    ensures err.None? <==> LowerDistinct(Names(all))
    ensures err.Some? ==> err.value.DuplicateExact? || err.value.DuplicateCaseInsensitive?
    ensures (exists n :: Count(Names(all), n) > 1) ==> err.Some? && err.value.DuplicateExact?
    ensures err.Some? && err.value.DuplicateExact? ==>
              err.value.count == Count(Names(all), err.value.name) && err.value.count > 1
    ensures err.Some? && err.value.DuplicateCaseInsensitive? ==>
              && (forall n :: Count(Names(all), n) <= 1)
              && err.value.variants == Variants(Names(all), err.value.lower)
              && |err.value.variants| > 1
  {
    var e := ValidateModules(all);
    if e.Some? {
      return e;
    }
    return None;
  }

  /** The registry as shipped passes validation. */
  lemma AllModulesAreValid()
    ensures LowerDistinct(Names(AllModules))
  {
  }
}

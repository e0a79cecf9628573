/**
 The mutating half of `UGameplayTagValueSubsystem`: the baseline "Default"
 repository, target selection for writes, and set/remove/clear/list over
 the repository chain. The subsystem's state is the chain itself; every
 operation returns the new chain.
 */
module Subsystem {
  import opened Basics
  import opened Tags
  import opened TagValueHolder
  import R = Repository
  import MR = MemoryRepository
  import opened RepositoryChain
  import opened Resolution

  const DefaultRepositoryName: Name := "Default"
  const DefaultRepositoryPriority: int32 := 100

  /**
   The invariant every operation keeps: the chain is sorted by priority,
   names are unique, and every repository is well formed.
   */
  predicate ChainInvariant(chain: seq<R.Repository>) {
    Sorted(chain) && UniqueNames(chain) &&
    forall k :: 0 <= k < |chain| ==> R.WellFormed(chain[k])
  }

  /** True iff some repository of the chain holds exactly `t`. */
  predicate AnyHolds(chain: seq<R.Repository>, t: Tag) {
    exists k :: 0 <= k < |chain| && R.HasValue(chain[k], t)
  }

  /**
   `Initialize`: a chain holding only the empty memory repository named
   "Default", of priority 100, which is then the target of unnamed writes.
   */
  function Initialize(): (chain: seq<R.Repository>)
    ensures ChainInvariant(chain)
    ensures |chain| == 1
    ensures R.RepositoryName(chain[0]) == DefaultRepositoryName && R.Priority(chain[0]) == DefaultRepositoryPriority
    ensures chain[0].MemoryRepo?
    ensures forall t :: !AnyHolds(chain, t)
    ensures GetBestRepository(chain, NameNone) == Some(0)
  {
    var d := R.MemoryRepo(MR.NewMemoryRepository(DefaultRepositoryName, DefaultRepositoryPriority));
    var chain := Register([], Some(d));
    assert |multiset(chain)| == 1;
    assert chain[0] in multiset(chain);
    chain
  }

  /** `Deinitialize`: every repository is dropped, so no write has a target and nothing resolves. */
  function Deinitialize(chain: seq<R.Repository>): (c: seq<R.Repository>)
    ensures ChainInvariant(c)
    ensures forall n :: GetBestRepository(c, n).None?
    ensures forall t :: Resolve(c, t).None?
  {
    []
  }

  /**
   `GetBestRepository`: the repository named `name` when a name is given
   and registered; otherwise the one named "Default" (not the one of
   highest priority); nothing when neither exists.
   */
  function GetBestRepository(chain: seq<R.Repository>, name: Name): (i: Option<nat>)
    ensures i.Some? ==> i.value < |chain|
    ensures name != NameNone && HasName(chain, name) ==> i.Some? && R.RepositoryName(chain[i.value]) == name
    ensures !(name != NameNone && HasName(chain, name)) ==>
      (i.Some? ==> R.RepositoryName(chain[i.value]) == DefaultRepositoryName)
    ensures i.None? <==> !(name != NameNone && HasName(chain, name)) && !HasName(chain, DefaultRepositoryName)
  {
    if name != NameNone && Find(chain, name).Some? then Find(chain, name)
    else Find(chain, DefaultRepositoryName)
  }

  /**
   `SetRawValue`: fails and changes nothing for an invalid tag, a null
   holder, or when there is no target; otherwise writes to the target
   only and reports success.
   */
  function SetRawValue(chain: seq<R.Repository>, t: Tag, v: Option<Holder>, name: Name): (r: (bool, seq<R.Repository>))
    ensures r.0 <==> IsValid(t) && v.Some? && GetBestRepository(chain, name).Some?
    ensures !r.0 ==> r.1 == chain
    ensures |r.1| == |chain|
    ensures r.0 ==> var i := GetBestRepository(chain, name).value;
      r.1[i] == R.SetValue(chain[i], t, v) &&
      forall j :: 0 <= j < |chain| && j != i ==> r.1[j] == chain[j]
    ensures ChainInvariant(chain) ==> ChainInvariant(r.1)
  {
    if !IsValid(t) || v.None? then (false, chain)
    else
      match GetBestRepository(chain, name)
      case None => (false, chain)
      case Some(i) =>
        var repo := R.SetValue(chain[i], t, v);
        UpdatePreservesInvariants(chain, i, repo);
        (true, chain[i := repo])
  }

  /** `SetTypedValue`: wraps the payload in a fresh holder and writes it with `SetRawValue`. */
  function SetTypedValue(chain: seq<R.Repository>, t: Tag, p: Payload, name: Name): (r: (bool, seq<R.Repository>))
    ensures r.0 <==> IsValid(t) && GetBestRepository(chain, name).Some?
    ensures !r.0 ==> r.1 == chain
    ensures |r.1| == |chain|
    ensures r.0 ==> var i := GetBestRepository(chain, name).value;
      r.1[i] == R.SetValue(chain[i], t, Some(MakeHolder(p))) &&
      (chain[i].MemoryRepo? ==> R.GetValue(r.1[i], t) == Some(MakeHolder(p))) &&
      forall j :: 0 <= j < |chain| && j != i ==> r.1[j] == chain[j]
    ensures ChainInvariant(chain) ==> ChainInvariant(r.1)
  {
    if !IsValid(t) then (false, chain)
    else SetRawValue(chain, t, Some(MakeHolder(p)), name)
  }

  /**
   Success is reported by target selection alone: a string holder written
   to a component repository, which cannot store strings, still reports
   success while the chain is unchanged.
   */
  lemma StringWriteToComponentReportsSuccess(chain: seq<R.Repository>, t: Tag, h: Holder, name: Name)
    requires IsValid(t) && TypeName(h) == StringKind
    requires GetBestRepository(chain, name).Some? && chain[GetBestRepository(chain, name).value].ComponentRepo?
    ensures SetRawValue(chain, t, Some(h), name) == (true, chain)
  {
    var i := GetBestRepository(chain, name).value;
    assert chain[i := chain[i]] == chain;
  }

  /**
   Set then get: a holder written to a memory repository is what
   `GetRawValue` resolves when no repository before it holds the tag.
   */
  lemma SetRawThenResolve(chain: seq<R.Repository>, t: Tag, h: Holder, name: Name)
    requires IsValid(t) && GetBestRepository(chain, name).Some?
    requires chain[GetBestRepository(chain, name).value].MemoryRepo?
    requires forall j :: 0 <= j < GetBestRepository(chain, name).value ==> !R.HasValue(chain[j], t)
    ensures Resolve(SetRawValue(chain, t, Some(h), name).1, t) == Some(h)
  {
    var i := GetBestRepository(chain, name).value;
    var c := SetRawValue(chain, t, Some(h), name).1;
    assert FirstHolder(c, t) == Some(i) by {
      assert R.HasValue(c[i], t);
      assert forall j :: 0 <= j < i ==> c[j] == chain[j];
    }
    ExactMatchWins(c, t);
  }

  /**
   The typed round trip: a payload set into a memory repository with no
   earlier holder of the tag comes back from `GetTypedValue` when the
   default is of the same kind and no context reports the tag.
   */
  lemma SetTypedThenGetTyped(chain: seq<R.Repository>, t: Tag, p: Payload, default: Payload, name: Name)
    requires IsValid(t) && GetBestRepository(chain, name).Some?
    requires chain[GetBestRepository(chain, name).value].MemoryRepo?
    requires forall j :: 0 <= j < GetBestRepository(chain, name).value ==> !R.HasValue(chain[j], t)
    requires KindOf(default) == KindOf(p)
    ensures GetTypedValue(SetTypedValue(chain, t, p, name).1, t, default, None) == p
  {
    SetRawThenResolve(chain, t, MakeHolder(p), name);
  }

  /**
   Removes `t` from every repository of the chain in order, reporting
   whether any of them held it (the unnamed branch of `RemoveTagValue`).
   */
  function {:induction false} RemoveEverywhere(chain: seq<R.Repository>, t: Tag): (r: (bool, seq<R.Repository>))
    ensures r.0 <==> AnyHolds(chain, t)
    ensures |r.1| == |chain|
    ensures forall k :: 0 <= k < |chain| ==>
      R.RepositoryName(r.1[k]) == R.RepositoryName(chain[k]) && R.Priority(r.1[k]) == R.Priority(chain[k])
    ensures forall k :: 0 <= k < |chain| && R.WellFormed(chain[k]) ==> R.WellFormed(r.1[k]) && !R.HasValue(r.1[k], t)
    ensures forall k, u :: 0 <= k < |chain| && u != t ==> (R.HasValue(r.1[k], u) <==> R.HasValue(chain[k], u))
    decreases |chain|
  {
    if |chain| == 0 then (false, [])
    else
      var rest := RemoveEverywhere(chain[1..], t);
      var head := if R.HasValue(chain[0], t) then R.RemoveValue(chain[0], t) else chain[0];
      assert forall k :: 1 <= k < |chain| ==> chain[k] == chain[1..][k - 1];
      var s := [head] + rest.1;
      assert forall k :: 1 <= k < |chain| ==> s[k] == rest.1[k - 1];
      (R.HasValue(chain[0], t) || rest.0, s)
  }

  /**
   `RemoveTagValue`: an invalid tag fails; with a name only that
   repository is touched, and success means it held the tag; without a
   name the tag is removed from every repository, and success means at
   least one held it.
   */
  function RemoveTagValue(chain: seq<R.Repository>, t: Tag, name: Name): (r: (bool, seq<R.Repository>))
    ensures !IsValid(t) ==> !r.0 && r.1 == chain
    ensures |r.1| == |chain|
    ensures IsValid(t) && name != NameNone ==>
      (r.0 <==> HasName(chain, name) && R.HasValue(chain[Find(chain, name).value], t))
    ensures IsValid(t) && name != NameNone ==>
      forall k :: 0 <= k < |chain| && R.RepositoryName(chain[k]) != name ==> r.1[k] == chain[k]
    ensures IsValid(t) && name != NameNone && ChainInvariant(chain) ==>
      forall k :: 0 <= k < |chain| && R.RepositoryName(chain[k]) == name ==> !R.HasValue(r.1[k], t)
    ensures IsValid(t) && name == NameNone ==> (r.0 <==> AnyHolds(chain, t))
    ensures IsValid(t) && name == NameNone && ChainInvariant(chain) ==> !AnyHolds(r.1, t)
    ensures forall k, u :: 0 <= k < |chain| && u != t ==> (R.HasValue(r.1[k], u) <==> R.HasValue(chain[k], u))
    ensures ChainInvariant(chain) ==> ChainInvariant(r.1)
  {
    if !IsValid(t) then (false, chain)
    else if name != NameNone then
      match Find(chain, name)
      case None => (false, chain)
      case Some(i) =>
        if R.HasValue(chain[i], t) then
          var repo := R.RemoveValue(chain[i], t);
          UpdatePreservesInvariants(chain, i, repo);
          NamedTargetIsUnique(chain, name, i);
          (true, chain[i := repo])
        else
          NamedTargetIsUnique(chain, name, i);
          (false, chain)
    else
      var r := RemoveEverywhere(chain, t);
      SameNamesAndPrioritiesKeepInvariants(chain, r.1);
      r
  }

  /** In a chain satisfying the invariant, the repository `Find` returns is the only one of that name. */
  lemma NamedTargetIsUnique(chain: seq<R.Repository>, name: Name, i: nat)
    requires Find(chain, name) == Some(i)
    ensures ChainInvariant(chain) ==> forall k :: 0 <= k < |chain| && R.RepositoryName(chain[k]) == name ==> k == i
  {
    if ChainInvariant(chain) {
      forall k | 0 <= k < |chain| && R.RepositoryName(chain[k]) == name
        ensures k == i
      {
        FindUnique(chain, name, k);
      }
    }
  }

  /**
   A chain whose repositories keep their names, priorities and well
   formedness, index by index, keeps the chain invariant.
   */
  lemma SameNamesAndPrioritiesKeepInvariants(chain: seq<R.Repository>, c: seq<R.Repository>)
    requires |c| == |chain|
    requires forall k :: 0 <= k < |chain| ==>
      R.RepositoryName(c[k]) == R.RepositoryName(chain[k]) && R.Priority(c[k]) == R.Priority(chain[k])
    requires forall k :: 0 <= k < |chain| && R.WellFormed(chain[k]) ==> R.WellFormed(c[k])
    ensures ChainInvariant(chain) ==> ChainInvariant(c)
  {
  }

  /**
   `ClearAllValues`: with a name, only that repository is emptied (an
   unknown name changes nothing); without one, every repository is.
   */
  function ClearAllValues(chain: seq<R.Repository>, name: Name): (c: seq<R.Repository>)
    ensures |c| == |chain|
    ensures forall k :: 0 <= k < |chain| ==>
      R.RepositoryName(c[k]) == R.RepositoryName(chain[k]) && R.Priority(c[k]) == R.Priority(chain[k])
    ensures name == NameNone ==> forall t :: !AnyHolds(c, t)
    ensures name != NameNone ==>
      forall k :: 0 <= k < |chain| && (Find(chain, name).None? || k != Find(chain, name).value) ==> c[k] == chain[k]
    ensures name != NameNone && HasName(chain, name) ==> forall t :: !R.HasValue(c[Find(chain, name).value], t)
    ensures !HasName(chain, name) && name != NameNone ==> c == chain
    ensures ChainInvariant(chain) ==> ChainInvariant(c)
  {
    if name != NameNone then
      match Find(chain, name)
      case None => chain
      case Some(i) =>
        var repo := R.ClearAllValues(chain[i]);
        UpdatePreservesInvariants(chain, i, repo);
        chain[i := repo]
    else
      var c := seq(|chain|, k requires 0 <= k < |chain| => R.ClearAllValues(chain[k]));
      SameNamesAndPrioritiesKeepInvariants(chain, c);
      c
  }

  /** Clearing a second time changes nothing. */
  lemma ClearIdempotent(chain: seq<R.Repository>, name: Name)
    ensures ClearAllValues(ClearAllValues(chain, name), name) == ClearAllValues(chain, name)
  {
    var c := ClearAllValues(chain, name);
    FindDependsOnlyOnNames(chain, c, name);
    assert forall k :: 0 <= k < |chain| ==> R.ClearAllValues(R.ClearAllValues(chain[k])) == R.ClearAllValues(chain[k]);
  }

  /** `Find` looks only at names, so chains with the same names index by index agree on it. */
  lemma {:induction false} FindDependsOnlyOnNames(a: seq<R.Repository>, b: seq<R.Repository>, n: Name)
    requires |a| == |b|
    requires forall k :: 0 <= k < |a| ==> R.RepositoryName(a[k]) == R.RepositoryName(b[k])
    ensures Find(a, n) == Find(b, n)
    decreases |a|
  {
    if |a| > 0 {
      assert forall k :: 0 <= k < |a| - 1 ==> a[1..][k] == a[k + 1] && b[1..][k] == b[k + 1];
      FindDependsOnlyOnNames(a[1..], b[1..], n);
    }
  }

  /**
   `GetAllTags`: every tag held by some repository, each exactly once,
   and nothing else.
   */
  method GetAllTags(chain: seq<R.Repository>) returns (tags: seq<Tag>)
    ensures NoDuplicates(tags)
    ensures forall t :: t in tags <==> AnyHolds(chain, t)
  {
    var unique: set<Tag> := {};
    var k := 0;
    while k < |chain|
      invariant 0 <= k <= |chain|
      invariant forall t :: t in unique <==> exists j :: 0 <= j < k && R.HasValue(chain[j], t)
    {
      var repoTags := R.GetAllTags(chain[k]);
      unique := unique + set t | t in repoTags;
      k := k + 1;
    }
    tags := MR.EnumerateTags(unique);
  }

  /** Registration keeps the chain invariant, given a well-formed repository. */
  lemma RegisterKeepsInvariant(chain: seq<R.Repository>, repo: Option<R.Repository>)
    requires ChainInvariant(chain)
    requires repo.Some? ==> R.WellFormed(repo.value)
    ensures ChainInvariant(Register(chain, repo))
  {
    RegisterKeepsUniqueNames(chain, repo);
    if repo.Some? {
      RegisterMembers(chain, repo.value);
    }
  }

  /** Unregistration keeps the chain invariant. */
  lemma UnregisterKeepsInvariant(chain: seq<R.Repository>, n: Name)
    requires ChainInvariant(chain)
    ensures ChainInvariant(Unregister(chain, n))
  {
    UnregisterKeepsSorted(chain, n);
    UnregisterKeepsUniqueNames(chain, n);
  }

  /** Every repository of the chain is an empty memory repository. */
  predicate AllEmptyMemory(chain: seq<R.Repository>) {
    forall x :: x in chain ==> x.MemoryRepo? && x.m.values == map[]
  }

  /** Registering an empty memory repository keeps every repository an empty memory one. */
  lemma RegisterEmptyMemory(chain: seq<R.Repository>, name: Name, priority: int32)
    requires AllEmptyMemory(chain)
    ensures AllEmptyMemory(Register(chain, Some(R.MemoryRepo(MR.NewMemoryRepository(name, priority)))))
  {
    RegisterMembers(chain, R.MemoryRepo(MR.NewMemoryRepository(name, priority)));
  }

  /** Registration keeps every other name and adds the new one. */
  lemma RegisterNames(chain: seq<R.Repository>, r: R.Repository, n: Name)
    ensures HasName(Register(chain, Some(r)), R.RepositoryName(r))
    ensures HasName(chain, n) && n != R.RepositoryName(r) ==> HasName(Register(chain, Some(r)), n)
  {
    var s := Register(chain, Some(r));
    RegisterMembers(chain, r);
    MemberNamed(s, r);
    if HasName(chain, n) && n != R.RepositoryName(r) {
      var m :| 0 <= m < |chain| && R.RepositoryName(chain[m]) == n;
      assert chain[m] in chain;
      MemberNamed(s, chain[m]);
    }
  }

  /** A member of a chain makes its name present in it. */
  lemma MemberNamed(s: seq<R.Repository>, x: R.Repository)
    requires x in s
    ensures HasName(s, R.RepositoryName(x))
  {
    var k :| 0 <= k < |s| && s[k] == x;
  }

  /** The sample chain: "Config" at 200 and "Runtime" at 50 registered next to the default repository. */
  lemma SampleChain(c0: seq<R.Repository>, config: R.Repository, runtime: R.Repository)
    requires AllEmptyMemory(c0) && HasName(c0, DefaultRepositoryName)
    requires config == R.MemoryRepo(MR.NewMemoryRepository("Config", 200))
    requires runtime == R.MemoryRepo(MR.NewMemoryRepository("Runtime", 50))
    ensures var c2 := Register(Register(c0, Some(config)), Some(runtime));
      AllEmptyMemory(c2) && HasName(c2, DefaultRepositoryName) && HasName(c2, "Config") && HasName(c2, "Runtime")
  {
    var c1 := Register(c0, Some(config));
    RegisterEmptyMemory(c0, "Config", 200);
    RegisterNames(c0, config, DefaultRepositoryName);
    RegisterEmptyMemory(c1, "Runtime", 50);
    RegisterNames(c1, runtime, DefaultRepositoryName);
    RegisterNames(c1, runtime, "Config");
  }

  /**
   A typed write to a memory repository: it lands in the repository
   `GetBestRepository` picks, which then holds the new payload under the
   tag and keeps every other tag's holder, while every other repository
   is left as it was and every name is kept.
   */
  lemma WriteToMemoryTarget(c: seq<R.Repository>, a: Tag, p: Payload, n: Name) returns (i: nat)
    requires IsValid(a) && GetBestRepository(c, n).Some?
    requires forall k :: 0 <= k < |c| ==> c[k].MemoryRepo?
    ensures i == GetBestRepository(c, n).value
    ensures var r := SetTypedValue(c, a, p, n);
      r.0 && |r.1| == |c| && i < |c| &&
      R.GetValue(r.1[i], a) == Some(MakeHolder(p)) &&
      (forall u :: u != a ==> R.GetValue(r.1[i], u) == R.GetValue(c[i], u)) &&
      (forall k :: 0 <= k < |c| && k != i ==> r.1[k] == c[k]) &&
      (forall k :: 0 <= k < |c| ==> r.1[k].MemoryRepo? && R.RepositoryName(r.1[k]) == R.RepositoryName(c[k]))
  {
    i := GetBestRepository(c, n).value;
    var r := SetRawValue(c, a, Some(MakeHolder(p)), n);
    assert SetTypedValue(c, a, p, n) == r;
    assert r.1[i] == R.SetValue(c[i], a, Some(MakeHolder(p)));
  }

  /**
   The two writes of the sample on a chain of empty memory repositories
   holding "Default" and "Runtime": an unnamed write of `p` to `a` lands
   in the default repository `i`, a write of `q` to `b` in "Runtime" lands
   in repository `j`, and each tag is then held by its repository only.
   */
  lemma SampleWriteTargets(c2: seq<R.Repository>, a: Tag, p: Payload, b: Tag, q: Payload) returns (i: nat, j: nat)
    requires AllEmptyMemory(c2) && HasName(c2, DefaultRepositoryName) && HasName(c2, "Runtime")
    requires IsValid(a) && IsValid(b) && a != b
    ensures var c3 := SetTypedValue(c2, a, p, NameNone);
      var c4 := SetTypedValue(c3.1, b, q, "Runtime");
      c3.0 && c4.0 && i < |c4.1| && j < |c4.1| &&
      R.GetValue(c4.1[i], a) == Some(MakeHolder(p)) &&
      R.GetValue(c4.1[j], b) == Some(MakeHolder(q)) &&
      (forall k :: 0 <= k < |c4.1| && k != i ==> !R.HasValue(c4.1[k], a)) &&
      (forall k :: 0 <= k < |c4.1| && k != j ==> !R.HasValue(c4.1[k], b))
  {
    forall k | 0 <= k < |c2|
      ensures c2[k].MemoryRepo? && c2[k].m.values == map[]
    {
      assert c2[k] in c2;
    }
    i := WriteToMemoryTarget(c2, a, p, NameNone);
    var c3 := SetTypedValue(c2, a, p, NameNone).1;
    FindDependsOnlyOnNames(c2, c3, "Runtime");
    j := WriteToMemoryTarget(c3, b, q, "Runtime");
    assert j != i by {
      assert R.RepositoryName(c3[j]) == "Runtime";
      assert R.RepositoryName(c3[i]) == DefaultRepositoryName;
    }
    var c4 := SetTypedValue(c3, b, q, "Runtime").1;
    assert c4[i] == c3[i];
    forall k | 0 <= k < |c4| && k != j
      ensures !R.HasValue(c4[k], b)
    {
      assert c4[k] == c3[k];
      if k == i {
        assert R.GetValue(c3[i], b) == R.GetValue(c2[i], b);
      } else {
        assert c3[k] == c2[k];
      }
    }
    forall k | 0 <= k < |c4| && k != i
      ensures !R.HasValue(c4[k], a)
    {
      assert c3[k] == c2[k];
      if k == j {
        assert R.GetValue(c4[j], a) == R.GetValue(c3[j], a);
      } else {
        assert c4[k] == c3[k];
      }
    }
  }

  /** The chain `Initialize` builds meets the precondition of the sample below. */
  lemma InitializeIsEmptyDefault()
    ensures AllEmptyMemory(Initialize()) && HasName(Initialize(), DefaultRepositoryName)
  {
    var c0 := Initialize();
    assert c0 == [c0[0]];
  }

  /**
   The sample set-up of the module start-up code, on the chain left by
   `Initialize` (or any chain of empty memory repositories with a
   "Default" one): "Config" at 200, the default repository at 100 and
   "Runtime" at 50. With `Character.Health`
   set to 100 through an unnamed write and `Character.Health.Max` to 150
   in "Runtime", the deeper tag resolves to 150 from the lowest-priority
   repository, and `Character.Health` to 100 from the default one.
   */
  lemma SampleScenario(c0: seq<R.Repository>)
    requires AllEmptyMemory(c0) && HasName(c0, DefaultRepositoryName)
    ensures var health := Tag(["Character", "Health"]);
      var max := Tag(["Character", "Health", "Max"]);
      var c1 := Register(c0, Some(R.MemoryRepo(MR.NewMemoryRepository("Config", 200))));
      var c2 := Register(c1, Some(R.MemoryRepo(MR.NewMemoryRepository("Runtime", 50))));
      var c3 := SetTypedValue(c2, health, IntPayload(100), NameNone);
      var c4 := SetTypedValue(c3.1, max, IntPayload(150), "Runtime");
      c3.0 && c4.0 &&
      GetTypedValue(c4.1, max, IntPayload(0), None) == IntPayload(150) &&
      GetTypedValue(c4.1, health, IntPayload(0), None) == IntPayload(100)
  {
    var health := Tag(["Character", "Health"]);
    var max := Tag(["Character", "Health", "Max"]);
    var config := R.MemoryRepo(MR.NewMemoryRepository("Config", 200));
    var runtime := R.MemoryRepo(MR.NewMemoryRepository("Runtime", 50));
    SampleChain(c0, config, runtime);
    var c2 := Register(Register(c0, Some(config)), Some(runtime));
    var i, j := SampleWriteTargets(c2, health, IntPayload(100), max, IntPayload(150));
    var c4 := SetTypedValue(SetTypedValue(c2, health, IntPayload(100), NameNone).1, max, IntPayload(150), "Runtime").1;
    SoleHolderGetTyped(c4, max, j, IntPayload(150), IntPayload(0));
    SoleHolderGetTyped(c4, health, i, IntPayload(100), IntPayload(0));
  }
}

/**
 The repository chain of `UGameplayTagValueSubsystem`: an array of
 repositories kept in non-increasing priority order. Registration
 replaces any repository of the same name and re-sorts with an unstable
 sort, so the order among equal priorities is not promised.
 */
module RepositoryChain {
  import opened Basics
  import opened Repository

  /** Non-increasing priority order: a repository is never followed by a higher-priority one. */
  predicate Sorted(chain: seq<Repository>) {
    forall i, j :: 0 <= i < j < |chain| ==> Priority(chain[i]) >= Priority(chain[j])
  }

  /** No two repositories share a name. */
  predicate UniqueNames(chain: seq<Repository>) {
    forall i, j :: 0 <= i < j < |chain| ==> RepositoryName(chain[i]) != RepositoryName(chain[j])
  }

  /** True iff some repository in the chain is named `n`. */
  predicate HasName(chain: seq<Repository>, n: Name) {
    exists i :: 0 <= i < |chain| && RepositoryName(chain[i]) == n
  }

  /** Puts `r` into a chain before the first repository of lower priority. */
  function Insert(r: Repository, chain: seq<Repository>): (s: seq<Repository>)
    ensures multiset(s) == multiset(chain) + multiset{r}
  {
    if |chain| == 0 then [r]
    else if Priority(chain[0]) < Priority(r) then [r] + chain
    else
      assert chain == [chain[0]] + chain[1..];
      [chain[0]] + Insert(r, chain[1..])
  }

  /** Inserting into a sorted chain keeps it sorted. */
  lemma {:induction false} InsertKeepsSorted(r: Repository, chain: seq<Repository>)
    requires Sorted(chain)
    ensures Sorted(Insert(r, chain))
  {
    if |chain| > 0 && Priority(chain[0]) >= Priority(r) {
      var rest := Insert(r, chain[1..]);
      InsertKeepsSorted(r, chain[1..]);
      forall j | 0 <= j < |rest|
        ensures Priority(chain[0]) >= Priority(rest[j])
      {
        assert rest[j] in multiset(rest);
        if rest[j] != r {
          assert rest[j] in multiset(chain[1..]);
          var k :| 0 <= k < |chain[1..]| && chain[1..][k] == rest[j];
          assert chain[k + 1] == rest[j];
        }
      }
    }
  }

  /** Inserting a repository whose name is new keeps the names unique. */
  lemma {:induction false} InsertKeepsUniqueNames(r: Repository, chain: seq<Repository>)
    requires UniqueNames(chain) && !HasName(chain, RepositoryName(r))
    ensures UniqueNames(Insert(r, chain))
  {
    if |chain| > 0 && Priority(chain[0]) >= Priority(r) {
      var rest := Insert(r, chain[1..]);
      forall k | 0 <= k < |chain[1..]|
        ensures RepositoryName(chain[1..][k]) != RepositoryName(r)
      {
        assert chain[1..][k] == chain[k + 1];
      }
      InsertKeepsUniqueNames(r, chain[1..]);
      forall j | 0 <= j < |rest|
        ensures RepositoryName(chain[0]) != RepositoryName(rest[j])
      {
        assert rest[j] in multiset(rest);
        if rest[j] != r {
          assert rest[j] in multiset(chain[1..]);
          var k :| 0 <= k < |chain[1..]| && chain[1..][k] == rest[j];
          assert chain[k + 1] == rest[j];
        }
      }
    }
  }

  /**
   The re-sort after registration (`TArray::Sort` with "higher priority
   first"): the result is a sorted permutation of the input. The body
   fixes one order among equal priorities; the contract promises none.
   */
  function SortByPriority(chain: seq<Repository>): (s: seq<Repository>)
    ensures multiset(s) == multiset(chain)
    ensures Sorted(s)
  {
    if |chain| == 0 then []
    else
      var rest := SortByPriority(chain[1..]);
      assert chain == [chain[0]] + chain[1..];
      InsertKeepsSorted(chain[0], rest);
      Insert(chain[0], rest)
  }

  /** Sorting permutes, so it keeps the names unique. */
  lemma {:induction false} SortKeepsUniqueNames(chain: seq<Repository>)
    requires UniqueNames(chain)
    ensures UniqueNames(SortByPriority(chain))
  {
    if |chain| > 0 {
      var rest := SortByPriority(chain[1..]);
      assert chain == [chain[0]] + chain[1..];
      SortKeepsUniqueNames(chain[1..]);
      forall k | 0 <= k < |rest|
        ensures RepositoryName(rest[k]) != RepositoryName(chain[0])
      {
        assert rest[k] in multiset(chain[1..]);
        var m :| 0 <= m < |chain[1..]| && chain[1..][m] == rest[k];
        assert chain[m + 1] == rest[k];
      }
      InsertKeepsUniqueNames(chain[0], rest);
    }
  }

  /**
   `UnregisterRepository` (`RemoveAll` by name): every repository named `n`
   is dropped and every other one is kept.
   */
  function Unregister(chain: seq<Repository>, n: Name): (s: seq<Repository>)
    ensures forall x :: x in s ==> x in chain
    ensures !HasName(s, n)
    ensures |s| <= |chain|
  {
    if |chain| == 0 then []
    else
      assert chain == [chain[0]] + chain[1..];
      if RepositoryName(chain[0]) == n then Unregister(chain[1..], n)
      else [chain[0]] + Unregister(chain[1..], n)
  }

  /** `Unregister` drops every copy of a repository named `n` and keeps every copy of any other. */
  lemma {:induction false} UnregisterCounts(chain: seq<Repository>, n: Name)
    ensures forall r :: multiset(Unregister(chain, n))[r] == if RepositoryName(r) == n then 0 else multiset(chain)[r]
  {
    if |chain| > 0 {
      assert chain == [chain[0]] + chain[1..];
      UnregisterCounts(chain[1..], n);
    }
  }

  /** Unregistering keeps the remaining repositories in their order, so a sorted chain stays sorted. */
  lemma {:induction false} UnregisterKeepsSorted(chain: seq<Repository>, n: Name)
    requires Sorted(chain)
    ensures Sorted(Unregister(chain, n))
  {
    if |chain| > 0 {
      var tail := chain[1..];
      assert Sorted(tail) by {
        forall i, j | 0 <= i < j < |tail|
          ensures Priority(tail[i]) >= Priority(tail[j])
        {
          assert tail[i] == chain[i + 1] && tail[j] == chain[j + 1];
        }
      }
      UnregisterKeepsSorted(tail, n);
      var rest := Unregister(tail, n);
      if RepositoryName(chain[0]) != n {
        forall j | 0 <= j < |rest|
          ensures Priority(chain[0]) >= Priority(rest[j])
        {
          assert rest[j] in rest;
          var k :| 0 <= k < |tail| && tail[k] == rest[j];
          assert chain[k + 1] == rest[j];
        }
        var s := [chain[0]] + rest;
        forall i, j | 0 <= i < j < |s|
          ensures Priority(s[i]) >= Priority(s[j])
        {
          assert s[j] == rest[j - 1];
          if i > 0 {
            assert s[i] == rest[i - 1];
          }
        }
      }
    }
  }

  /** Unregistering keeps the names of a uniquely named chain unique. */
  lemma {:induction false} UnregisterKeepsUniqueNames(chain: seq<Repository>, n: Name)
    requires UniqueNames(chain)
    ensures UniqueNames(Unregister(chain, n))
  {
    if |chain| > 0 {
      var tail := chain[1..];
      assert UniqueNames(tail) by {
        forall i, j | 0 <= i < j < |tail|
          ensures RepositoryName(tail[i]) != RepositoryName(tail[j])
        {
          assert tail[i] == chain[i + 1] && tail[j] == chain[j + 1];
        }
      }
      UnregisterKeepsUniqueNames(tail, n);
      var rest := Unregister(tail, n);
      if RepositoryName(chain[0]) != n {
        forall j | 0 <= j < |rest|
          ensures RepositoryName(chain[0]) != RepositoryName(rest[j])
        {
          assert rest[j] in rest;
          var k :| 0 <= k < |tail| && tail[k] == rest[j];
          assert chain[k + 1] == rest[j];
        }
        var s := [chain[0]] + rest;
        forall i, j | 0 <= i < j < |s|
          ensures RepositoryName(s[i]) != RepositoryName(s[j])
        {
          assert s[j] == rest[j - 1];
          if i > 0 {
            assert s[i] == rest[i - 1];
          }
        }
      }
    }
  }

  /**
   `RegisterRepository`: a null repository is ignored; otherwise any
   repository of the same name is removed, the new one is added, and the
   chain is re-sorted by priority.
   */
  function Register(chain: seq<Repository>, repo: Option<Repository>): (s: seq<Repository>)
    ensures repo.None? ==> s == chain
    ensures repo.Some? ==> Sorted(s)
    ensures repo.Some? ==> multiset(s) == multiset(Unregister(chain, RepositoryName(repo.value))) + multiset{repo.value}
    ensures repo.Some? ==> multiset(s)[repo.value] == 1
    ensures repo.Some? ==> forall i :: 0 <= i < |s| && RepositoryName(s[i]) == RepositoryName(repo.value) ==> s[i] == repo.value
    ensures repo.Some? ==> forall r :: RepositoryName(r) != RepositoryName(repo.value) ==> multiset(s)[r] == multiset(chain)[r]
  {
    match repo
    case None => chain
    case Some(r) =>
      var kept := Unregister(chain, RepositoryName(r));
      UnregisterCounts(chain, RepositoryName(r));
      var s := SortByPriority(kept + [r]);
      assert multiset(kept + [r]) == multiset(kept) + multiset{r};
      assert multiset(kept)[r] == 0;
      assert forall i :: 0 <= i < |s| && RepositoryName(s[i]) == RepositoryName(r) ==> s[i] == r by {
        forall i | 0 <= i < |s| && RepositoryName(s[i]) == RepositoryName(r)
          ensures s[i] == r
        {
          assert s[i] in multiset(kept) + multiset{r};
          assert multiset(kept)[s[i]] == 0;
        }
      }
      s
  }

  /** Registration keeps the names of a uniquely named chain unique. */
  lemma RegisterKeepsUniqueNames(chain: seq<Repository>, repo: Option<Repository>)
    requires UniqueNames(chain)
    ensures UniqueNames(Register(chain, repo))
  {
    if repo.Some? {
      var kept := Unregister(chain, RepositoryName(repo.value));
      UnregisterKeepsUniqueNames(chain, RepositoryName(repo.value));
      var joined := kept + [repo.value];
      assert UniqueNames(joined) by {
        forall i, j | 0 <= i < j < |joined|
          ensures RepositoryName(joined[i]) != RepositoryName(joined[j])
        {
          if j == |kept| {
            assert joined[i] == kept[i];
          } else {
            assert joined[i] == kept[i] && joined[j] == kept[j];
          }
        }
      }
      SortKeepsUniqueNames(joined);
    }
  }

  /**
   Membership after registration: the new repository is in the chain,
   every other member was there before, and every earlier member of
   another name is still there.
   */
  lemma RegisterMembers(chain: seq<Repository>, r: Repository)
    ensures r in Register(chain, Some(r))
    ensures forall x :: x in Register(chain, Some(r)) ==> x in chain || x == r
    ensures forall x :: x in chain && RepositoryName(x) != RepositoryName(r) ==> x in Register(chain, Some(r))
  {
    var s := Register(chain, Some(r));
    var kept := Unregister(chain, RepositoryName(r));
    UnregisterCounts(chain, RepositoryName(r));
    assert multiset(s)[r] == 1;
    forall x | x in s
      ensures x in chain || x == r
    {
      assert x in multiset(kept) + multiset{r};
    }
    forall x | x in chain && RepositoryName(x) != RepositoryName(r)
      ensures x in s
    {
      assert multiset(s)[x] == multiset(chain)[x];
    }
  }

  /**
   `GetRepository`, by index: the first repository named `n`, or nothing
   when no repository carries that name.
   */
  function Find(chain: seq<Repository>, n: Name): (i: Option<nat>)
    ensures i.Some? ==> i.value < |chain| && RepositoryName(chain[i.value]) == n
    ensures i.Some? ==> forall j :: 0 <= j < i.value ==> RepositoryName(chain[j]) != n
    ensures i.None? <==> !HasName(chain, n)
  {
    if |chain| == 0 then None
    else if RepositoryName(chain[0]) == n then Some(0)
    else
      match Find(chain[1..], n)
      case Some(k) => Some(k + 1)
      case None =>
        forall k | 1 <= k < |chain|
          ensures RepositoryName(chain[k]) != n
        {
          assert chain[k] == chain[1..][k - 1];
        }
        None
  }

  /** `GetRepository`: a repository named `n`, or null when none is registered. */
  function GetRepository(chain: seq<Repository>, n: Name): (r: Option<Repository>)
    ensures r.Some? ==> r.value in chain && RepositoryName(r.value) == n
    ensures r.None? <==> !HasName(chain, n)
  {
    match Find(chain, n)
    case Some(i) => Some(chain[i])
    case None => None
  }

  /** In a chain of unique names, `Find` returns the only repository of that name. */
  lemma FindUnique(chain: seq<Repository>, n: Name, i: nat)
    requires UniqueNames(chain)
    requires i < |chain| && RepositoryName(chain[i]) == n
    ensures Find(chain, n) == Some(i)
  {
    assert HasName(chain, n);
  }

  /** Replacing a repository by one with the same name and priority keeps the chain's invariants. */
  lemma UpdatePreservesInvariants(chain: seq<Repository>, i: nat, r: Repository)
    requires i < |chain|
    requires RepositoryName(r) == RepositoryName(chain[i]) && Priority(r) == Priority(chain[i])
    ensures Sorted(chain) ==> Sorted(chain[i := r])
    ensures UniqueNames(chain) ==> UniqueNames(chain[i := r])
  {
    var s := chain[i := r];
    assert forall k :: 0 <= k < |s| ==> RepositoryName(s[k]) == RepositoryName(chain[k]) && Priority(s[k]) == Priority(chain[k]);
  }
}

/**
 The resolution engine of `UGameplayTagValueSubsystem`: a two-dimensional
 search that walks from the tag towards the root and, at each level, scans
 every repository in chain order. Only when no repository holds a level
 does the search move to the parent, so an exact match in a low-priority
 repository beats a parent-tag value in a high-priority one.
 */
module Resolution {
  import opened Basics
  import opened Tags
  import opened TagValueHolder
  import opened Repository
  import opened RepositoryChain

  /**
   A context object implementing `ITagValueInterface`: whether it reports a
   tag, and one getter per value type, each given the tag and the caller's
   default of that type. `None` stands for a null context or an object
   that does not implement the interface.
   */
  datatype Context = Context(
    hasTagValue: Tag -> bool,
    getBool: (Tag, bool) -> bool,
    getInt: (Tag, int32) -> int32,
    getFloat: (Tag, real) -> real,
    getString: (Tag, string) -> string,
    getTransform: (Tag, Transform) -> Transform,
    getClass: (Tag, SoftPath) -> SoftPath,
    getObject: (Tag, SoftPath) -> SoftPath)

  /**
   The subsystem's dispatch to the context's typed getters: the getter of
   the default's type, called with the tag and the default. The subsystem
   never calls `GetStringValue`, so strings have no getter here.
   */
  function ContextGetter(c: Context, t: Tag, default: Payload): (r: Option<Payload>)
    ensures r.Some? <==> KindOf(default) != StringKind
    ensures r.Some? ==> KindOf(r.value) == KindOf(default)
    ensures default.BoolPayload? ==> r == Some(BoolPayload(c.getBool(t, default.b)))
    ensures default.IntPayload? ==> r == Some(IntPayload(c.getInt(t, default.i)))
    ensures default.FloatPayload? ==> r == Some(FloatPayload(c.getFloat(t, default.f)))
    ensures default.TransformPayload? ==> r == Some(TransformPayload(c.getTransform(t, default.t)))
    ensures default.ClassPayload? ==> r == Some(ClassPayload(c.getClass(t, default.c)))
    ensures default.ObjectPayload? ==> r == Some(ObjectPayload(c.getObject(t, default.o)))
  {
    match default
    case BoolPayload(b) => Some(BoolPayload(c.getBool(t, b)))
    case IntPayload(i) => Some(IntPayload(c.getInt(t, i)))
    case FloatPayload(f) => Some(FloatPayload(c.getFloat(t, f)))
    case TransformPayload(x) => Some(TransformPayload(c.getTransform(t, x)))
    case ClassPayload(p) => Some(ClassPayload(c.getClass(t, p)))
    case ObjectPayload(o) => Some(ObjectPayload(c.getObject(t, o)))
    case StringPayload(_) => None
  }

  /** True iff the context is present and reports the tag. */
  predicate ContextReports(ctx: Option<Context>, t: Tag) {
    ctx.Some? && ctx.value.hasTagValue(t)
  }

  /** The index of the first repository, in chain order, holding exactly `t`. */
  function FirstHolder(chain: seq<Repository>, t: Tag): (k: Option<nat>)
    ensures k.Some? ==> k.value < |chain| && HasValue(chain[k.value], t)
    ensures k.Some? ==> forall j :: 0 <= j < k.value ==> !HasValue(chain[j], t)
    ensures k.None? <==> forall j :: 0 <= j < |chain| ==> !HasValue(chain[j], t)
  {
    if |chain| == 0 then None
    else if HasValue(chain[0], t) then Some(0)
    else
      match FirstHolder(chain[1..], t)
      case Some(k) => Some(k + 1)
      case None =>
        assert forall j :: 1 <= j < |chain| ==> chain[j] == chain[1..][j - 1];
        None
  }

  /**
   Where the search over `levels` stops: the first level held by any
   repository, and the first repository in chain order holding it.
   */
  function Locate(chain: seq<Repository>, levels: seq<Tag>): (loc: Option<(nat, nat)>)
    ensures loc.Some? ==> loc.value.0 < |levels| && loc.value.1 < |chain|
    ensures loc.Some? ==> HasValue(chain[loc.value.1], levels[loc.value.0])
    ensures loc.Some? ==> forall k :: 0 <= k < loc.value.1 ==> !HasValue(chain[k], levels[loc.value.0])
    ensures loc.Some? ==>
      forall d, k :: 0 <= d < loc.value.0 && 0 <= k < |chain| ==> !HasValue(chain[k], levels[d])
    ensures loc.None? <==>
      forall d, k :: 0 <= d < |levels| && 0 <= k < |chain| ==> !HasValue(chain[k], levels[d])
  {
    if |levels| == 0 then None
    else
      match FirstHolder(chain, levels[0])
      case Some(k) => Some((0, k))
      case None =>
        assert forall d :: 1 <= d < |levels| ==> levels[d] == levels[1..][d - 1];
        match Locate(chain, levels[1..])
        case Some(loc) => Some((loc.0 + 1, loc.1))
        case None => None
  }

  /** The minimal (level, repository) pair is the one `Locate` finds. */
  lemma LocateUnique(chain: seq<Repository>, levels: seq<Tag>, d: nat, k: nat)
    requires d < |levels| && k < |chain| && HasValue(chain[k], levels[d])
    requires forall j :: 0 <= j < k ==> !HasValue(chain[j], levels[d])
    requires forall d', j :: 0 <= d' < d && 0 <= j < |chain| ==> !HasValue(chain[j], levels[d'])
    ensures Locate(chain, levels) == Some((d, k))
  {
    var loc := Locate(chain, levels);
    assert loc.Some?;
    assert loc.value.0 == d by {
      assert !(loc.value.0 < d);
      assert !(d < loc.value.0);
    }
  }

  /**
   The reference resolution: the holder found at the stopping point of the
   two-dimensional search, or nothing when no level is held.
   */
  function Resolve(chain: seq<Repository>, t: Tag): (r: Option<Holder>)
    ensures r.Some? <==> exists d, k :: 0 <= d < |Levels(t)| && 0 <= k < |chain| && HasValue(chain[k], Levels(t)[d])
  {
    match Locate(chain, Levels(t))
    case Some(loc) => GetValue(chain[loc.1], Levels(t)[loc.0])
    case None => None
  }

  /**
   `GetRawValue`: the loops of the source, an exact-match scan followed by
   one scan per ancestor. The context is not consulted.
   */
  method GetRawValue(chain: seq<Repository>, t: Tag, ctx: Option<Context>) returns (r: Option<Holder>)
    ensures r == Resolve(chain, t)
  {
    LevelsShape(t);
    ghost var levels := Levels(t);
    var k := 0;
    while k < |chain|
      invariant 0 <= k <= |chain|
      invariant forall j :: 0 <= j < k ==> !HasValue(chain[j], t)
    {
      if HasValue(chain[k], t) {
        LocateUnique(chain, levels, 0, k);
        r := GetValue(chain[k], t);
        return;
      }
      k := k + 1;
    }
    var parent := Parent(t);
    ghost var d := 1;
    while IsValid(parent)
      invariant 1 <= d <= |levels|
      invariant d < |levels| ==> parent == levels[d]
      invariant d == |levels| ==> !IsValid(parent)
      invariant forall e, j :: 0 <= e < d && 0 <= j < |chain| ==> !HasValue(chain[j], levels[e])
      decreases |parent.segments|
    {
      var i := 0;
      while i < |chain|
        invariant 0 <= i <= |chain|
        invariant forall j :: 0 <= j < i ==> !HasValue(chain[j], parent)
      {
        if HasValue(chain[i], parent) {
          LocateUnique(chain, levels, d, i);
          r := GetValue(chain[i], parent);
          return;
        }
        i := i + 1;
      }
      parent := Parent(parent);
      d := d + 1;
    }
    assert Locate(chain, levels).None?;
    r := None;
  }

  /**
   `HasTagValue`: the context is asked first; otherwise true iff some
   repository holds the tag or one of its ancestors.
   */
  function HasTagValue(chain: seq<Repository>, t: Tag, ctx: Option<Context>): (b: bool)
    ensures b <==> (ContextReports(ctx, t) ||
                    exists d, k :: 0 <= d < |Levels(t)| && 0 <= k < |chain| && HasValue(chain[k], Levels(t)[d]))
  {
    ContextReports(ctx, t) || Locate(chain, Levels(t)).Some?
  }

  /** Without a context, `HasTagValue` holds exactly when `GetRawValue` finds a holder. */
  lemma HasTagValueAgreesWithGetRawValue(chain: seq<Repository>, t: Tag)
    ensures HasTagValue(chain, t, None) <==> Resolve(chain, t).Some?
  {
  }

  /**
   For a valid tag, resolution finds nothing exactly when no repository
   holds the tag or any of its ancestors.
   */
  lemma {:induction false} ResolveNoneIffNoAncestorHeld(chain: seq<Repository>, t: Tag)
    requires IsValid(t)
    ensures Resolve(chain, t).None? <==>
      forall a, k :: IsAncestorOrSelf(a, t) && 0 <= k < |chain| ==> !HasValue(chain[k], a)
  {
    var levels := Levels(t);
    if Resolve(chain, t).None? {
      forall a, k | IsAncestorOrSelf(a, t) && 0 <= k < |chain|
        ensures !HasValue(chain[k], a)
      {
        LevelsAreAncestors(t, a);
        var d :| 0 <= d < |levels| && levels[d] == a;
      }
    } else {
      var d, k :| 0 <= d < |levels| && 0 <= k < |chain| && HasValue(chain[k], levels[d]);
      LevelsAreAncestors(t, levels[d]);
    }
  }

  /**
   The declarative reading of resolution: for a valid tag, a found value
   comes from the first repository, in chain order, holding the deepest
   ancestor-or-self of `t` that any repository holds.
   */
  lemma {:induction false} ResolveFindsDeepestHeldAncestor(chain: seq<Repository>, t: Tag)
    requires IsValid(t) && Resolve(chain, t).Some?
    ensures exists a, k ::
              && IsAncestorOrSelf(a, t) && 0 <= k < |chain| && HasValue(chain[k], a)
              && Resolve(chain, t) == GetValue(chain[k], a)
              && (forall j :: 0 <= j < k ==> !HasValue(chain[j], a))
              && (forall b, j :: IsAncestorOrSelf(b, t) && |b.segments| > |a.segments| && 0 <= j < |chain| ==> !HasValue(chain[j], b))
  {
    var levels := Levels(t);
    var loc := Locate(chain, levels).value;
    var a := levels[loc.0];
    var k := loc.1;
    LevelLength(t, loc.0);
    assert a in levels;
    LevelsAreAncestors(t, a);
    forall b, j | IsAncestorOrSelf(b, t) && |b.segments| > |a.segments| && 0 <= j < |chain|
      ensures !HasValue(chain[j], b)
    {
      var e := AncestorLevel(t, b);
      assert e < loc.0;
    }
    assert forall j :: 0 <= j < k ==> !HasValue(chain[j], a);
  }

  /**
   The context is consulted by `HasTagValue` but not by `GetRawValue`: a
   context reporting a tag that no repository holds at any level makes
   `HasTagValue` true while `GetRawValue` finds nothing.
   */
  lemma ContextOnlyAffectsHasTagValue(chain: seq<Repository>, t: Tag, ctx: Option<Context>)
    requires ContextReports(ctx, t)
    requires forall k, d :: 0 <= k < |chain| && 0 <= d < |Levels(t)| ==> !HasValue(chain[k], Levels(t)[d])
    ensures HasTagValue(chain, t, ctx)
    ensures Resolve(chain, t).None?
  {
  }

  /**
   An exact match decides: when any repository holds `t` itself, the
   result is the first such repository's value, whatever any repository
   holds for an ancestor of `t`.
   */
  lemma ExactMatchWins(chain: seq<Repository>, t: Tag)
    requires FirstHolder(chain, t).Some?
    ensures Resolve(chain, t) == GetValue(chain[FirstHolder(chain, t).value], t)
  {
    LevelsShape(t);
    LocateUnique(chain, Levels(t), 0, FirstHolder(chain, t).value);
  }

  /** When exactly one repository holds `t`, its value is the one resolved. */
  lemma SoleHolderResolves(chain: seq<Repository>, t: Tag, j: nat)
    requires j < |chain| && HasValue(chain[j], t)
    requires forall k :: 0 <= k < |chain| && k != j ==> !HasValue(chain[k], t)
    ensures Resolve(chain, t) == GetValue(chain[j], t)
  {
    ExactMatchWins(chain, t);
  }

  /**
   A tag held by one repository only, with a holder made from `p`, reads
   back `p` through the typed getter for any default of the same kind.
   */
  lemma SoleHolderGetTyped(chain: seq<Repository>, t: Tag, j: nat, p: Payload, default: Payload)
    requires IsValid(t) && j < |chain| && GetValue(chain[j], t) == Some(MakeHolder(p))
    requires forall k :: 0 <= k < |chain| && k != j ==> !HasValue(chain[k], t)
    requires KindOf(default) == KindOf(p)
    ensures GetTypedValue(chain, t, default, None) == p
  {
    SoleHolderResolves(chain, t, j);
  }

  /**
   Hierarchy before priority: a lower-priority repository holding `t`
   outranks a higher-priority repository that holds only the parent.
   */
  lemma LowPriorityExactBeatsHighPriorityParent(chain: seq<Repository>, t: Tag, high: nat, low: nat)
    requires high < low < |chain|
    requires Priority(chain[high]) > Priority(chain[low])
    requires HasValue(chain[high], Parent(t)) && HasValue(chain[low], t)
    requires forall k :: 0 <= k < |chain| && k != low ==> !HasValue(chain[k], t)
    ensures Resolve(chain, t) == GetValue(chain[low], t)
  {
    ExactMatchWins(chain, t);
    assert FirstHolder(chain, t) == Some(low);
  }

  /**
   Without a match at `t`, the search continues exactly as a search
   started at the parent.
   */
  lemma FallsBackToParent(chain: seq<Repository>, t: Tag)
    requires IsValid(Parent(t))
    requires FirstHolder(chain, t).None?
    ensures Resolve(chain, t) == Resolve(chain, Parent(t))
  {
    var levels := Levels(t);
    assert levels == [t] + Levels(Parent(t));
    assert levels[1..] == Levels(Parent(t));
  }

  /**
   Priority at one level: in a sorted chain, the repository whose value is
   returned for an exact match has at least the priority of every other
   repository holding that tag.
   */
  lemma ResolvedRepositoryHasTopPriority(chain: seq<Repository>, t: Tag, j: nat)
    requires Sorted(chain)
    requires j < |chain| && HasValue(chain[j], t)
    ensures FirstHolder(chain, t).Some?
    ensures Priority(chain[FirstHolder(chain, t).value]) >= Priority(chain[j])
    ensures Resolve(chain, t) == GetValue(chain[FirstHolder(chain, t).value], t)
  {
    ExactMatchWins(chain, t);
  }

  /**
   In a sorted chain, a repository holding `t` whose priority is strictly
   above that of every other holder of `t` supplies the value.
   */
  lemma HighestPriorityExactMatchWins(chain: seq<Repository>, t: Tag, i: nat)
    requires Sorted(chain)
    requires i < |chain| && HasValue(chain[i], t)
    requires forall j :: 0 <= j < |chain| && j != i && HasValue(chain[j], t) ==> Priority(chain[j]) < Priority(chain[i])
    ensures Resolve(chain, t) == GetValue(chain[i], t)
  {
    ResolvedRepositoryHasTopPriority(chain, t, i);
    var k := FirstHolder(chain, t).value;
    assert k == i;
  }

  /**
   `TryGetValueFromContext`: for a present context that reports the tag,
   the typed getter matching the default's kind; strings have no such
   getter in the subsystem, so they are never taken from a context.
   */
  function TryGetValueFromContext(ctx: Option<Context>, t: Tag, default: Payload): (r: Option<Payload>)
    ensures r.Some? <==> ContextReports(ctx, t) && KindOf(default) != StringKind
    ensures r.Some? ==> r == ContextGetter(ctx.value, t, default) && KindOf(r.value) == KindOf(default)
  {
    if !ContextReports(ctx, t) then None
    else ContextGetter(ctx.value, t, default)
  }

  /**
   `TryGetValueFromRepositories`: the resolved holder's payload, but only
   when its type name is the requested one.
   */
  function TryGetValueFromRepositories(chain: seq<Repository>, t: Tag, kind: ValueKind): (r: Option<Payload>)
    ensures r.Some? <==> Resolve(chain, t).Some? && TypeName(Resolve(chain, t).value) == kind
    ensures r.Some? ==> r.value == ValuePtr(Resolve(chain, t).value) && KindOf(r.value) == kind
  {
    match Resolve(chain, t)
    case None => None
    case Some(h) => if TypeName(h) != kind then None else Some(ValuePtr(h))
  }

  /**
   `GetTypedValue`, with the requested type given by the default's kind:
   an invalid tag yields the default; a context reporting the tag wins;
   otherwise the repositories' value of the requested type, or the default
   when nothing resolves or the type differs.
   */
  function GetTypedValue(chain: seq<Repository>, t: Tag, default: Payload, ctx: Option<Context>): (r: Payload)
    ensures KindOf(r) == KindOf(default)
    ensures !IsValid(t) ==> r == default
    ensures IsValid(t) && ContextReports(ctx, t) && KindOf(default) != StringKind ==>
      r == ContextGetter(ctx.value, t, default).value
    ensures IsValid(t) && !(ContextReports(ctx, t) && KindOf(default) != StringKind) ==>
      (if Resolve(chain, t).Some? && TypeName(Resolve(chain, t).value) == KindOf(default)
       then r == ValuePtr(Resolve(chain, t).value)
       else r == default)
  {
    if !IsValid(t) then default
    else
      match TryGetValueFromContext(ctx, t, default)
      case Some(v) => v
      case None =>
        match TryGetValueFromRepositories(chain, t, KindOf(default))
        case Some(v) => v
        case None => default
  }

  /** A context that reports the tag decides the result, whatever the repositories hold. */
  lemma ContextWins(chain1: seq<Repository>, chain2: seq<Repository>, t: Tag, default: Payload, ctx: Option<Context>)
    requires IsValid(t) && ContextReports(ctx, t) && KindOf(default) != StringKind
    ensures GetTypedValue(chain1, t, default, ctx) == GetTypedValue(chain2, t, default, ctx)
  {
  }

  /**
   A type mismatch is a miss: when the resolved holder is of another kind,
   the default comes back (storing a bool and asking for an int with
   default 42 yields 42).
   */
  lemma TypeMismatchYieldsDefault(chain: seq<Repository>, t: Tag, default: Payload)
    requires IsValid(t)
    requires Resolve(chain, t).Some? && TypeName(Resolve(chain, t).value) != KindOf(default)
    ensures GetTypedValue(chain, t, default, None) == default
  {
  }
}

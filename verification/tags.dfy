/**
 Hierarchical gameplay tags. A tag is a sequence of segments
 (`Character.Health.Max` is ["Character", "Health", "Max"]); the empty
 sequence is the invalid tag, as a default-constructed `FGameplayTag` is.
 */
module Tags {
  import opened Basics

  datatype Tag = Tag(segments: seq<string>)

  /** `FGameplayTag::IsValid`. */
  predicate IsValid(t: Tag) {
    |t.segments| > 0
  }

  /** The invalid tag. */
  const InvalidTag: Tag := Tag([])

  /**
   `FGameplayTag::RequestDirectParent`: the last segment dropped. A
   one-segment tag has no parent, so its parent is the invalid tag; the
   parent of the invalid tag is the invalid tag.
   */
  function Parent(t: Tag): (p: Tag)
    ensures IsValid(t) ==> |p.segments| == |t.segments| - 1
    ensures IsValid(t) ==> p.segments == t.segments[..|t.segments| - 1]
    ensures !IsValid(t) ==> p == InvalidTag
    ensures IsValid(p) <==> |t.segments| >= 2
  {
    if |t.segments| == 0 then t else Tag(t.segments[..|t.segments| - 1])
  }

  /** True iff `a` is `t` itself or one of its ancestors (a segment prefix). */
  predicate IsAncestorOrSelf(a: Tag, t: Tag) {
    IsValid(a) && a.segments <= t.segments
  }

  /**
   The levels the resolution engine visits for `t`: `t` itself, then its
   parent, grandparent, ... for as long as the parent is a valid tag.
   */
  function Levels(t: Tag): (ls: seq<Tag>)
    decreases |t.segments|
  {
    if IsValid(Parent(t)) then [t] + Levels(Parent(t)) else [t]
  }

  /**
   Shape of the walk: it starts at `t`, each step is one `Parent`, every
   level after the first is valid, and the levels get strictly shorter.
   */
  lemma {:induction false} LevelsShape(t: Tag)
    ensures |Levels(t)| >= 1 && Levels(t)[0] == t
    ensures IsValid(t) ==> |Levels(t)| == |t.segments|
    ensures !IsValid(t) ==> |Levels(t)| == 1
    ensures forall d :: 0 < d < |Levels(t)| ==> Levels(t)[d] == Parent(Levels(t)[d - 1])
    ensures forall d :: 0 <= d < |Levels(t)| ==> |Levels(t)[d].segments| == |t.segments| - d
    ensures forall d :: 1 <= d < |Levels(t)| ==> IsValid(Levels(t)[d])
    ensures IsValid(t) ==> forall d :: 0 <= d < |Levels(t)| ==> Levels(t)[d].segments == t.segments[..|t.segments| - d]
    ensures !IsValid(Parent(Levels(t)[|Levels(t)| - 1]))
    decreases |t.segments|
  {
    if IsValid(Parent(t)) {
      LevelsShape(Parent(t));
      var ls := Levels(t);
      forall d | 1 <= d < |ls|
        ensures ls[d].segments == t.segments[..|t.segments| - d]
      {
        assert ls[d] == Levels(Parent(t))[d - 1];
      }
    }
  }

  /** Every level of a valid tag is exactly one of its valid ancestors-or-self. */
  lemma {:induction false} LevelsAreAncestors(t: Tag, a: Tag)
    requires IsValid(t)
    ensures a in Levels(t) <==> IsAncestorOrSelf(a, t)
    decreases |t.segments|
  {
    if IsValid(Parent(t)) {
      LevelsAreAncestors(Parent(t), a);
      if IsAncestorOrSelf(a, t) && a != t {
        assert a.segments != t.segments;
        assert |a.segments| < |t.segments|;
        assert a.segments <= Parent(t).segments;
      }
    } else {
      if IsAncestorOrSelf(a, t) {
        assert a.segments == t.segments;
      }
    }
  }

  /** The level at depth `d` is `d` segments shorter than the tag. */
  lemma LevelLength(t: Tag, d: nat)
    requires d < |Levels(t)|
    ensures |Levels(t)[d].segments| == |t.segments| - d
  {
    LevelsShape(t);
  }

  /** An ancestor-or-self of a valid tag is visited at the depth its length fixes. */
  lemma AncestorLevel(t: Tag, b: Tag) returns (e: nat)
    requires IsValid(t) && IsAncestorOrSelf(b, t)
    ensures e < |Levels(t)| && Levels(t)[e] == b
    ensures e == |t.segments| - |b.segments|
  {
    LevelsAreAncestors(t, b);
    e :| 0 <= e < |Levels(t)| && Levels(t)[e] == b;
    LevelLength(t, e);
  }
}

/**
 `UTagValueRepositoryComponent`: a repository backed by an array of
 tag/value mappings searched front to back. Its value record
 (`FTagValue`) has one field per supported type; converting a holder
 writes one field, and converting back is a stub that always yields a
 bool holder.
 */
module RepositoryComponent {
  import opened Basics
  import opened Tags
  import opened TagValueHolder

  /** `FTagValue`: one field per supported value type. */
  datatype TagValue = TagValue(
    boolValue: bool,
    integerValue: int32,
    floatValue: real,
    transformValue: Transform,
    classValue: SoftPath,
    objectValue: SoftPath)

  /** `FTagValue` with every field at its declared default. */
  const DefaultTagValue: TagValue :=
    TagValue(false, 0, 0.0, IdentityTransform, SoftPath(""), SoftPath(""))

  /** `FTagValueMapping`: one row of the array. */
  datatype TagValueMapping = TagValueMapping(tag: Tag, value: TagValue)

  datatype Component = Component(name: Name, priority: int32, mappings: seq<TagValueMapping>)

  /** The component's constructor defaults. */
  function NewComponent(): (c: Component)
    ensures c.name == "ActorComponentRepository" && c.priority == 100
    ensures forall t :: !HasValue(c, t)
  {
    Component("ActorComponentRepository", 100, [])
  }

  /** No tag appears in two mappings. */
  predicate UniqueTags(ms: seq<TagValueMapping>) {
    forall i, j :: 0 <= i < j < |ms| ==> ms[i].tag != ms[j].tag
  }

  /** True iff some mapping carries tag `t`. */
  predicate HasTag(ms: seq<TagValueMapping>, t: Tag) {
    exists i :: 0 <= i < |ms| && ms[i].tag == t
  }

  /** The index of the first mapping carrying `t`, if there is one. */
  function FirstIndexOf(ms: seq<TagValueMapping>, t: Tag): (i: Option<nat>)
    ensures i.Some? ==> i.value < |ms| && ms[i.value].tag == t
    ensures i.Some? ==> forall j :: 0 <= j < i.value ==> ms[j].tag != t
    ensures i.None? ==> forall j :: 0 <= j < |ms| ==> ms[j].tag != t
  {
    if |ms| == 0 then None
    else if ms[0].tag == t then Some(0)
    else
      match FirstIndexOf(ms[1..], t)
      case Some(k) => Some(k + 1)
      case None => None
  }

  /**
   `SetTagValueMapping` as a function: the first mapping with tag `t` gets
   value `v` in place; when there is none, a mapping is appended.
   */
  function SetMapping(ms: seq<TagValueMapping>, t: Tag, v: TagValue): (r: seq<TagValueMapping>)
    ensures HasTag(ms, t) ==> |r| == |ms|
    ensures !HasTag(ms, t) ==> |r| == |ms| + 1 && r[|ms|] == TagValueMapping(t, v) && r[..|ms|] == ms
    ensures FirstIndexOf(r, t).Some? && r[FirstIndexOf(r, t).value].value == v
    ensures HasTag(ms, t) ==> var i := FirstIndexOf(ms, t).value;
      r[i] == TagValueMapping(t, v) && forall j :: 0 <= j < |ms| && j != i ==> r[j] == ms[j]
    ensures forall j :: 0 <= j < |ms| && ms[j].tag != t ==> r[j] == ms[j]
    ensures forall u :: HasTag(r, u) <==> HasTag(ms, u) || u == t
    ensures UniqueTags(ms) ==> UniqueTags(r)
  {
    match FirstIndexOf(ms, t)
    case Some(i) =>
      UpdateFirstFacts(ms, t, v, i);
      ms[i := TagValueMapping(t, v)]
    case None =>
      AppendFacts(ms, t, v);
      ms + [TagValueMapping(t, v)]
  }

  /** Writing `v` at the first index `i` of `t`: `t` still first there, the other tags unchanged. */
  lemma UpdateFirstFacts(ms: seq<TagValueMapping>, t: Tag, v: TagValue, i: nat)
    requires FirstIndexOf(ms, t) == Some(i)
    ensures var r := ms[i := TagValueMapping(t, v)];
      FirstIndexOf(r, t) == Some(i) &&
      (forall u :: HasTag(r, u) <==> HasTag(ms, u) || u == t) &&
      (UniqueTags(ms) ==> UniqueTags(r))
  {
    var r := ms[i := TagValueMapping(t, v)];
    FirstIndexUnique(r, t, i);
    forall u | HasTag(r, u)
      ensures HasTag(ms, u) || u == t
    {
      var k :| 0 <= k < |r| && r[k].tag == u;
      if k != i {
        assert ms[k].tag == u;
      }
    }
    forall u | HasTag(ms, u)
      ensures HasTag(r, u)
    {
      var k :| 0 <= k < |ms| && ms[k].tag == u;
      if k == i {
        assert r[i].tag == u;
      } else {
        assert r[k].tag == u;
      }
    }
  }

  /** Appending a mapping for an absent `t`: `t` first at the end, the other tags unchanged. */
  lemma AppendFacts(ms: seq<TagValueMapping>, t: Tag, v: TagValue)
    requires FirstIndexOf(ms, t).None?
    ensures var r := ms + [TagValueMapping(t, v)];
      FirstIndexOf(r, t) == Some(|ms|) &&
      (forall u :: HasTag(r, u) <==> HasTag(ms, u) || u == t) &&
      (UniqueTags(ms) ==> UniqueTags(r))
  {
    var r := ms + [TagValueMapping(t, v)];
    FirstIndexUnique(r, t, |ms|);
    forall u | HasTag(r, u)
      ensures HasTag(ms, u) || u == t
    {
      var k :| 0 <= k < |r| && r[k].tag == u;
      if k < |ms| {
        assert ms[k].tag == u;
      }
    }
    forall u | HasTag(ms, u)
      ensures HasTag(r, u)
    {
      var k :| 0 <= k < |ms| && ms[k].tag == u;
      assert r[k].tag == u;
    }
    assert r[|ms|].tag == t;
  }

  /** The first index carrying `t` is the one before which no mapping carries `t`. */
  lemma FirstIndexUnique(ms: seq<TagValueMapping>, t: Tag, i: nat)
    requires i < |ms| && ms[i].tag == t
    requires forall j :: 0 <= j < i ==> ms[j].tag != t
    ensures FirstIndexOf(ms, t) == Some(i)
  {
    var f := FirstIndexOf(ms, t);
    assert f.Some?;
  }

  /**
   `RemoveTagValueMapping` as a function: only the first mapping carrying
   `t` is removed, and the others keep their order.
   */
  function RemoveMapping(ms: seq<TagValueMapping>, t: Tag): (r: seq<TagValueMapping>)
    ensures !HasTag(ms, t) ==> r == ms
    ensures HasTag(ms, t) ==> |r| == |ms| - 1
    ensures HasTag(ms, t) ==>
      var i := FirstIndexOf(ms, t).value;
      (forall j :: 0 <= j < i ==> r[j] == ms[j]) &&
      (forall j :: i <= j < |r| ==> r[j] == ms[j + 1])
    ensures UniqueTags(ms) ==> UniqueTags(r) && !HasTag(r, t)
    ensures forall u :: u != t ==> (HasTag(r, u) <==> HasTag(ms, u))
  {
    match FirstIndexOf(ms, t)
    case Some(i) =>
      DeleteAtKeepsOthers(ms, i);
      DeleteAtKeepsUnique(ms, i);
      ms[..i] + ms[i + 1..]
    case None => ms
  }

  /** Deleting the mapping at `i` shifts the later ones down and keeps every tag but its own. */
  lemma DeleteAtKeepsOthers(ms: seq<TagValueMapping>, i: nat)
    requires i < |ms|
    ensures var r := ms[..i] + ms[i + 1..];
      |r| == |ms| - 1 &&
      (forall j :: 0 <= j < i ==> r[j] == ms[j]) &&
      (forall j :: i <= j < |r| ==> r[j] == ms[j + 1]) &&
      (forall u :: u != ms[i].tag ==> (HasTag(r, u) <==> HasTag(ms, u)))
  {
    var r := ms[..i] + ms[i + 1..];
    assert forall j :: 0 <= j < |r| ==> r[j] == (if j < i then ms[j] else ms[j + 1]);
    forall u | u != ms[i].tag && HasTag(ms, u)
      ensures HasTag(r, u)
    {
      var k :| 0 <= k < |ms| && ms[k].tag == u;
      if k < i {
        assert r[k].tag == u;
      } else {
        assert r[k - 1].tag == u;
      }
    }
  }

  /** Deleting from uniquely tagged mappings keeps them unique and drops the deleted tag. */
  lemma DeleteAtKeepsUnique(ms: seq<TagValueMapping>, i: nat)
    requires i < |ms|
    ensures var r := ms[..i] + ms[i + 1..];
      UniqueTags(ms) ==> UniqueTags(r) && !HasTag(r, ms[i].tag)
  {
    var r := ms[..i] + ms[i + 1..];
    assert forall j :: 0 <= j < |r| ==> r[j] == (if j < i then ms[j] else ms[j + 1]);
  }

  /** `SetTagValueMapping`: the front-to-back loop of the source. */
  method SetTagValueMapping(ms: seq<TagValueMapping>, t: Tag, v: TagValue) returns (r: seq<TagValueMapping>)
    ensures r == SetMapping(ms, t, v)
  {
    var i := 0;
    while i < |ms|
      invariant 0 <= i <= |ms|
      invariant forall j :: 0 <= j < i ==> ms[j].tag != t
    {
      if ms[i].tag == t {
        FirstIndexUnique(ms, t, i);
        r := ms[i := TagValueMapping(t, v)];
        return;
      }
      i := i + 1;
    }
    r := ms + [TagValueMapping(t, v)];
  }

  /** `RemoveTagValueMapping`: the front-to-back loop of the source, stopping at the first match. */
  method RemoveTagValueMapping(ms: seq<TagValueMapping>, t: Tag) returns (r: seq<TagValueMapping>)
    ensures r == RemoveMapping(ms, t)
  {
    var i := 0;
    while i < |ms|
      invariant 0 <= i <= |ms|
      invariant forall j :: 0 <= j < i ==> ms[j].tag != t
    {
      if ms[i].tag == t {
        FirstIndexUnique(ms, t, i);
        r := ms[..i] + ms[i + 1..];
        return;
      }
      i := i + 1;
    }
    r := ms;
  }

  /** `HasValue`: some mapping carries the tag. */
  predicate HasValue(c: Component, t: Tag)
    ensures HasValue(c, t) <==> FirstIndexOf(c.mappings, t).Some?
  {
    HasTag(c.mappings, t)
  }

  /**
   `ConvertHolderToTagValue`: a recognised holder is copied into the field
   of its type; a null holder, or one whose type is not among the six the
   component understands (a string), is refused.
   */
  function ConvertHolderToTagValue(h: Option<Holder>): (r: Option<TagValue>)
    ensures r.Some? <==> h.Some? && IsValidHolder(h.value) && TypeName(h.value) != StringKind
    ensures r.Some? && TypeName(h.value) == BoolKind ==> r.value.boolValue == ValuePtr(h.value).b
    ensures r.Some? && TypeName(h.value) == IntKind ==> r.value.integerValue == ValuePtr(h.value).i
    ensures r.Some? && TypeName(h.value) == FloatKind ==> r.value.floatValue == ValuePtr(h.value).f
    ensures r.Some? && TypeName(h.value) == TransformKind ==> r.value.transformValue == ValuePtr(h.value).t
    ensures r.Some? && TypeName(h.value) == ClassKind ==> r.value.classValue == ValuePtr(h.value).c
    ensures r.Some? && TypeName(h.value) == ObjectKind ==> r.value.objectValue == ValuePtr(h.value).o
  {
    if h.None? || !IsValidHolder(h.value) then None
    else
      match ValuePtr(h.value)
      case BoolPayload(b) => Some(DefaultTagValue.(boolValue := b))
      case IntPayload(i) => Some(DefaultTagValue.(integerValue := i))
      case FloatPayload(f) => Some(DefaultTagValue.(floatValue := f))
      case TransformPayload(x) => Some(DefaultTagValue.(transformValue := x))
      case ClassPayload(p) => Some(DefaultTagValue.(classValue := p))
      case ObjectPayload(p) => Some(DefaultTagValue.(objectValue := p))
      case StringPayload(_) => None
  }

  /** `ConvertTagValueToHolder`: the stub that always builds a bool holder. */
  function ConvertTagValueToHolder(v: TagValue): (h: Holder)
    ensures TypeName(h) == BoolKind && ValuePtr(h) == BoolPayload(v.boolValue)
  {
    MakeHolder(BoolPayload(v.boolValue))
  }

  /** `GetValue`: null when absent, otherwise a bool holder built from the first match. */
  function GetValue(c: Component, t: Tag): (h: Option<Holder>)
    ensures h.Some? <==> HasValue(c, t)
    ensures h.Some? ==> TypeName(h.value) == BoolKind
    ensures h.Some? ==> ValuePtr(h.value) == BoolPayload(c.mappings[FirstIndexOf(c.mappings, t).value].value.boolValue)
  {
    match FirstIndexOf(c.mappings, t)
    case Some(i) => Some(ConvertTagValueToHolder(c.mappings[i].value))
    case None => None
  }

  /** `RemoveValue`: removes the first mapping carrying the tag. */
  function RemoveValue(c: Component, t: Tag): (c': Component)
    ensures c'.name == c.name && c'.priority == c.priority
    ensures c'.mappings == RemoveMapping(c.mappings, t)
  {
    c.(mappings := RemoveMapping(c.mappings, t))
  }

  /**
   `SetValue`: a null holder removes the tag; a holder that converts is
   written with `SetTagValueMapping`; any other holder changes nothing.
   The tag's validity is not checked.
   */
  function SetValue(c: Component, t: Tag, h: Option<Holder>): (c': Component)
    ensures c'.name == c.name && c'.priority == c.priority
    ensures h.None? ==> c' == RemoveValue(c, t)
    ensures h.Some? && TypeName(h.value) == StringKind ==> c' == c
    ensures h.Some? && TypeName(h.value) != StringKind ==> HasValue(c', t)
    ensures h.Some? && TypeName(h.value) != StringKind ==>
      c'.mappings == SetMapping(c.mappings, t, ConvertHolderToTagValue(h).value)
    ensures UniqueTags(c.mappings) ==> UniqueTags(c'.mappings)
  {
    if h.None? then RemoveValue(c, t)
    else
      match ConvertHolderToTagValue(h)
      case Some(v) => c.(mappings := SetMapping(c.mappings, t, v))
      case None => c
  }

  /** `ClearAllValues`: zero mappings remain. */
  function ClearAllValues(c: Component): (c': Component)
    ensures c'.name == c.name && c'.priority == c.priority
    ensures |c'.mappings| == 0
    ensures forall t :: !HasValue(c', t)
  {
    c.(mappings := [])
  }

  /** `GetAllTags`: the mapping tags in array order, one per mapping. */
  method GetAllTags(c: Component) returns (tags: seq<Tag>)
    ensures |tags| == |c.mappings|
    ensures forall i :: 0 <= i < |tags| ==> tags[i] == c.mappings[i].tag
    ensures forall t :: t in tags <==> HasValue(c, t)
  {
    tags := [];
    var i := 0;
    while i < |c.mappings|
      invariant 0 <= i <= |c.mappings|
      invariant |tags| == i
      invariant forall k :: 0 <= k < i ==> tags[k] == c.mappings[k].tag
    {
      tags := tags + [c.mappings[i].tag];
      i := i + 1;
    }
    assert forall t :: t in tags ==> HasValue(c, t) by {
      forall t | t in tags
        ensures HasValue(c, t)
      {
        var k :| 0 <= k < |tags| && tags[k] == t;
        assert c.mappings[k].tag == t;
      }
    }
  }

  /**
   Writing a bool and reading it back round-trips; writing any other
   recognised kind reads back as a bool holder, because of the stub.
   */
  lemma {:induction false} SetThenGet(c: Component, t: Tag, p: Payload)
    requires KindOf(p) != StringKind
    ensures GetValue(SetValue(c, t, Some(MakeHolder(p))), t).Some?
    ensures p.BoolPayload? ==> GetValue(SetValue(c, t, Some(MakeHolder(p))), t) == Some(MakeHolder(p))
    ensures !p.BoolPayload? ==> GetValue(SetValue(c, t, Some(MakeHolder(p))), t) != Some(MakeHolder(p))
  {
    var c' := SetValue(c, t, Some(MakeHolder(p)));
    assert HasValue(c', t);
    var i := FirstIndexOf(c'.mappings, t).value;
    assert c'.mappings[i].value == ConvertHolderToTagValue(Some(MakeHolder(p))).value;
  }

  /** With unique tags, removing a tag makes it absent and leaves the others as they were. */
  lemma RemoveThenHas(c: Component, t: Tag, u: Tag)
    requires UniqueTags(c.mappings)
    ensures !HasValue(RemoveValue(c, t), t)
    ensures u != t ==> (HasValue(RemoveValue(c, t), u) <==> HasValue(c, u))
  {
  }
}

/**
 `FTagValueContainer`: a standalone map from tags to `FBaseTagValue`
 subtypes, with a typed getter whose requested type is the subtype of the
 caller's out value.
 */
module TagValueContainer {
  import opened Basics
  import opened Tags
  import opened TagValueBase
  import MR = MemoryRepository

  datatype TagValueContainer = TagValueContainer(values: map<Tag, BaseTagValue>)

  /** The default constructor: an empty container. */
  function NewContainer(): (c: TagValueContainer)
    ensures Num(c) == 0
    ensures forall t :: !HasValue(c, t)
  {
    TagValueContainer(map[])
  }

  /** `HasValue`: an exact match. */
  predicate HasValue(c: TagValueContainer, t: Tag) {
    t in c.values
  }

  /** `Num`: the number of stored tags. */
  function Num(c: TagValueContainer): nat {
    |c.values|
  }

  /**
   `SetValue`: an upsert of a copy of the value. Unlike the repositories,
   the tag is not checked for validity.
   */
  function SetValue(c: TagValueContainer, t: Tag, v: BaseTagValue): (c': TagValueContainer)
    ensures HasValue(c', t) && c'.values[t] == v
    ensures forall u :: u != t ==> (HasValue(c', u) <==> HasValue(c, u))
    ensures forall u :: u != t && HasValue(c, u) ==> u in c'.values && c'.values[u] == c.values[u]
    ensures HasValue(c, t) ==> Num(c') == Num(c)
    ensures !HasValue(c, t) ==> Num(c') == Num(c) + 1
  {
    TagValueContainer(c.values[t := v])
  }

  /**
   `GetValue` as written: the cast to the requested subtype is unchecked,
   so any stored value is reported as found and handed out, whatever its
   subtype; an absent tag leaves the out value as it was.
   */
  function GetValue(c: TagValueContainer, t: Tag, out: BaseTagValue): (r: (bool, BaseTagValue))
    ensures r.0 <==> HasValue(c, t)
    ensures r.0 ==> r.1 == c.values[t]
    ensures !r.0 ==> r.1 == out
  {
    if t in c.values then (true, c.values[t]) else (false, out)
  }

  /**
   `GetValue` as its documentation promises: found only when a value is
   stored and it is of the requested subtype; otherwise the out value is
   left as it was.
   */
  function GetValueChecked(c: TagValueContainer, t: Tag, out: BaseTagValue): (r: (bool, BaseTagValue))
    ensures r.0 <==> HasValue(c, t) && SameSubtype(c.values[t], out)
    ensures r.0 ==> r.1 == c.values[t] && GetValueType(r.1) == GetValueType(out)
    ensures !r.0 ==> r.1 == out
  {
    if t in c.values && GetValueType(c.values[t]) == GetValueType(out) then (true, c.values[t])
    else (false, out)
  }

  /**
   The unchecked cast at work: with a bool stored and an int requested,
   `GetValue` still reports success, while the checked getter refuses and
   leaves the out value alone.
   */
  lemma GetValueIgnoresSubtype(t: Tag)
    ensures var c := SetValue(NewContainer(), t, BoolTagValue(true));
      GetValue(c, t, IntTagValue(0)).0 &&
      !GetValueChecked(c, t, IntTagValue(0)).0 &&
      GetValueChecked(c, t, IntTagValue(0)).1 == IntTagValue(0)
  {
  }

  /** Whenever the stored subtype is the requested one, the two getters agree. */
  lemma GettersAgreeOnMatchingSubtype(c: TagValueContainer, t: Tag, out: BaseTagValue)
    requires HasValue(c, t) ==> SameSubtype(c.values[t], out)
    ensures GetValue(c, t, out) == GetValueChecked(c, t, out)
  {
  }

  /** Set then get: the checked getter returns the value just set when asked for its subtype. */
  lemma SetThenGet(c: TagValueContainer, t: Tag, v: BaseTagValue, out: BaseTagValue)
    requires SameSubtype(v, out)
    ensures GetValueChecked(SetValue(c, t, v), t, out) == (true, v)
  {
  }

  /** `RemoveValue`: reports whether the tag was present; every other tag keeps its value. */
  function RemoveValue(c: TagValueContainer, t: Tag): (r: (bool, TagValueContainer))
    ensures r.0 <==> HasValue(c, t)
    ensures !HasValue(r.1, t)
    ensures forall u :: u != t ==> (HasValue(r.1, u) <==> HasValue(c, u))
    ensures forall u :: u != t && HasValue(c, u) ==> u in r.1.values && r.1.values[u] == c.values[u]
    ensures r.0 ==> Num(r.1) + 1 == Num(c)
    ensures !r.0 ==> r.1 == c
  {
    (t in c.values, TagValueContainer(c.values - {t}))
  }

  /** `Clear`: nothing is stored afterwards. */
  function Clear(c: TagValueContainer): (c': TagValueContainer)
    ensures Num(c') == 0
    ensures forall t :: !HasValue(c', t)
  {
    TagValueContainer(map[])
  }

  /** `GetAllTags`: every stored tag once, so as many tags as `Num` counts. */
  method GetAllTags(c: TagValueContainer) returns (tags: seq<Tag>)
    ensures NoDuplicates(tags)
    ensures forall t :: t in tags <==> HasValue(c, t)
    ensures |tags| == Num(c)
  {
    tags := MR.EnumerateTags(c.values.Keys);
  }
}

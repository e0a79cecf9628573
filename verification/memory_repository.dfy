/**
 `FMemoryTagValueRepository`: a named, prioritised, exact-match hash map
 from tags to value holders.
 */
module MemoryRepository {
  import opened Basics
  import opened Tags
  import opened TagValueHolder

  datatype MemoryRepository = MemoryRepository(name: Name, priority: int32, values: map<Tag, Holder>)

  /** The constructor: a repository with the given name and priority and no values. */
  function NewMemoryRepository(name: Name, priority: int32): (r: MemoryRepository)
    ensures r.name == name && r.priority == priority
    ensures forall t :: !HasValue(r, t)
  {
    MemoryRepository(name, priority, map[])
  }

  /** `HasValue`: an exact match only. */
  predicate HasValue(r: MemoryRepository, t: Tag) {
    t in r.values
  }

  /** `GetValue`: the stored holder, or null when the tag is absent. */
  function GetValue(r: MemoryRepository, t: Tag): (v: Option<Holder>)
    ensures v.Some? <==> HasValue(r, t)
    ensures v.Some? ==> t in r.values && v.value == r.values[t]
  {
    if t in r.values then Some(r.values[t]) else None
  }

  /**
   `SetValue`: an upsert when the tag is valid and the holder is not null;
   otherwise the repository is left as it was.
   */
  function SetValue(r: MemoryRepository, t: Tag, v: Option<Holder>): (r': MemoryRepository)
    ensures r'.name == r.name && r'.priority == r.priority
    ensures IsValid(t) && v.Some? ==> GetValue(r', t) == v
    ensures IsValid(t) && v.Some? ==> r'.values.Keys == r.values.Keys + {t}
    ensures !(IsValid(t) && v.Some?) ==> r' == r
    ensures forall u :: u != t ==> GetValue(r', u) == GetValue(r, u)
  {
    if IsValid(t) && v.Some? then r.(values := r.values[t := v.value]) else r
  }

  /** `RemoveValue`: the tag is gone and every other tag keeps its value. */
  function RemoveValue(r: MemoryRepository, t: Tag): (r': MemoryRepository)
    ensures r'.name == r.name && r'.priority == r.priority
    ensures !HasValue(r', t)
    ensures r'.values.Keys == r.values.Keys - {t}
    ensures forall u :: u != t ==> GetValue(r', u) == GetValue(r, u)
  {
    r.(values := map u | u in r.values && u != t :: r.values[u])
  }

  /** `ClearAllValues`: no tag is held afterwards. */
  function ClearAllValues(r: MemoryRepository): (r': MemoryRepository)
    ensures r'.name == r.name && r'.priority == r.priority
    ensures forall t :: !HasValue(r', t)
  {
    r.(values := map[])
  }

  /**
   Lists the members of a set of tags once each, in an unspecified order
   (`TMap::GetKeys` and `TSet::GetKeys`).
   */
  method EnumerateTags(s: set<Tag>) returns (r: seq<Tag>)
    ensures NoDuplicates(r)
    ensures forall t :: t in r <==> t in s
    ensures |r| == |s|
  {
    var remaining := s;
    r := [];
    while remaining != {}
      invariant forall t :: t in s <==> t in r || t in remaining
      invariant forall t :: t in r ==> t !in remaining
      invariant NoDuplicates(r)
      invariant |r| + |remaining| == |s|
      decreases |remaining|
    {
      var t :| t in remaining;
      r := r + [t];
      remaining := remaining - {t};
    }
  }

  /** `GetAllTags`: every stored tag exactly once, in an unspecified order. */
  method GetAllTags(r: MemoryRepository) returns (tags: seq<Tag>)
    ensures NoDuplicates(tags)
    ensures forall t :: t in tags <==> HasValue(r, t)
    ensures |tags| == |r.values|
  {
    tags := EnumerateTags(r.values.Keys);
  }

  /** Set then get returns the holder just written. */
  lemma SetThenGet(r: MemoryRepository, t: Tag, h: Holder)
    requires IsValid(t)
    ensures HasValue(SetValue(r, t, Some(h)), t)
    ensures GetValue(SetValue(r, t, Some(h)), t) == Some(h)
  {
  }

  /** Clearing twice is the same as clearing once. */
  lemma ClearIdempotent(r: MemoryRepository)
    ensures ClearAllValues(ClearAllValues(r)) == ClearAllValues(r)
  {
  }
}

/**
 `ITagValueRepository`: the repository contract, over the two
 implementations in the source (the hash-map memory repository and the
 array-backed component). Every operation dispatches on the case.
 */
module Repository {
  import opened Basics
  import opened Tags
  import opened TagValueHolder
  import MR = MemoryRepository
  import RC = RepositoryComponent

  datatype Repository =
    | MemoryRepo(m: MR.MemoryRepository)
    | ComponentRepo(c: RC.Component)

  /** `GetRepositoryName`. */
  function RepositoryName(r: Repository): Name {
    match r
    case MemoryRepo(m) => m.name
    case ComponentRepo(c) => c.name
  }

  /** `GetPriority`: higher priority repositories are consulted first. */
  function Priority(r: Repository): int32 {
    match r
    case MemoryRepo(m) => m.priority
    case ComponentRepo(c) => c.priority
  }

  /** `HasValue`: an exact match, never an ancestor. */
  predicate HasValue(r: Repository, t: Tag) {
    match r
    case MemoryRepo(m) => MR.HasValue(m, t)
    case ComponentRepo(c) => RC.HasValue(c, t)
  }

  /** `GetValue`: a holder exactly when the tag is held. */
  function GetValue(r: Repository, t: Tag): (v: Option<Holder>)
    ensures v.Some? <==> HasValue(r, t)
  {
    match r
    case MemoryRepo(m) => MR.GetValue(m, t)
    case ComponentRepo(c) => RC.GetValue(c, t)
  }

  /** `SetValue`. */
  function SetValue(r: Repository, t: Tag, v: Option<Holder>): (r': Repository)
    ensures RepositoryName(r') == RepositoryName(r) && Priority(r') == Priority(r)
    ensures r'.MemoryRepo? == r.MemoryRepo?
    ensures WellFormed(r) ==> WellFormed(r')
    ensures r.MemoryRepo? && IsValid(t) && v.Some? ==> GetValue(r', t) == v
    ensures r.MemoryRepo? ==> forall u :: u != t ==> GetValue(r', u) == GetValue(r, u)
  {
    match r
    case MemoryRepo(m) => MemoryRepo(MR.SetValue(m, t, v))
    case ComponentRepo(c) => ComponentRepo(RC.SetValue(c, t, v))
  }

  /** `RemoveValue`. */
  function RemoveValue(r: Repository, t: Tag): (r': Repository)
    ensures RepositoryName(r') == RepositoryName(r) && Priority(r') == Priority(r)
    ensures r'.MemoryRepo? == r.MemoryRepo?
    ensures WellFormed(r) ==> WellFormed(r') && !HasValue(r', t)
    ensures forall u :: u != t ==> (HasValue(r', u) <==> HasValue(r, u))
  {
    match r
    case MemoryRepo(m) => MemoryRepo(MR.RemoveValue(m, t))
    case ComponentRepo(c) => ComponentRepo(RC.RemoveValue(c, t))
  }

  /** `ClearAllValues`. */
  function ClearAllValues(r: Repository): (r': Repository)
    ensures RepositoryName(r') == RepositoryName(r) && Priority(r') == Priority(r)
    ensures r'.MemoryRepo? == r.MemoryRepo?
    ensures WellFormed(r')
    ensures forall t :: !HasValue(r', t)
  {
    match r
    case MemoryRepo(m) => MemoryRepo(MR.ClearAllValues(m))
    case ComponentRepo(c) => ComponentRepo(RC.ClearAllValues(c))
  }

  /** `GetAllTags`: exactly the held tags; once each when the repository is well formed. */
  method GetAllTags(r: Repository) returns (tags: seq<Tag>)
    ensures forall t :: t in tags <==> HasValue(r, t)
    ensures WellFormed(r) ==> NoDuplicates(tags)
  {
    match r
    case MemoryRepo(m) =>
      tags := MR.GetAllTags(m);
    case ComponentRepo(c) =>
      tags := RC.GetAllTags(c);
  }

  /**
   The representation invariant kept by every operation: a component
   never holds two mappings for one tag.
   */
  predicate WellFormed(r: Repository) {
    r.ComponentRepo? ==> RC.UniqueTags(r.c.mappings)
  }
}

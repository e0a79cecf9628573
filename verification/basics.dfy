/**
 Shared vocabulary of the model: optional values (the stand-in for a null
 shared pointer), the engine's 32-bit signed integer, and names.
 */
module Basics {

  /** A possibly-absent value; `None` plays the role of a null `TSharedPtr`. */
  datatype Option<+T> = None | Some(value: T)

  /** The engine's `int32`. */
  newtype int32 = x: int | -0x8000_0000 <= x < 0x8000_0000

  /** An `FName`. Names are compared exactly. */
  type Name = string

  /** `NAME_None`, the name that means "no name given". */
  const NameNone: Name := "None"

  /** True iff no element of `s` occurs twice. */
  predicate NoDuplicates<T(==)>(s: seq<T>) {
    forall i, j :: 0 <= i < j < |s| ==> s[i] != s[j]
  }
}

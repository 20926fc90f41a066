/** What the modules share: optional values, bytes, the lesser of two numbers, and linear search. */
module Basics {

  /** An optional value, used for null pointers and missing results. */
  datatype Option<+T> = None | Some(value: T)

  type byte = x: int | 0 <= x < 256
  type Bytes = seq<byte>

  function Min(a: int, b: int): int {
    if a < b then a else b
  }

  /** Least index whose element is wanted, -1 if there is none. */
  function FirstWhere<T>(s: seq<T>, wanted: T -> bool): (i: int)
    ensures -1 <= i < |s|
    ensures 0 <= i ==> wanted(s[i])
    ensures forall j :: 0 <= j < (if i == -1 then |s| else i) ==> !wanted(s[j])
  {
    if s == [] then -1
    else if wanted(s[0]) then 0
    else var i := FirstWhere(s[1..], wanted); if i == -1 then -1 else i + 1
  }
}

// What several components share.

module Basics {
  datatype Option<+T> = None | Some(value: T)

  // What frrequest is asked: SIOCAD*FR, SIOCIN*FR, SIOCRM*FR.
  datatype Request = Add | Insert | Remove

  function Min(a: int, b: int): int { if a < b then a else b }

  // The position after i, going round in n positions.
  function Succ(i: nat, n: nat): (r: nat)
    requires i < n
    ensures r < n
  {
    if i + 1 == n then 0 else i + 1
  }
}

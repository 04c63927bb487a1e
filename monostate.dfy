/**
 * `monostate`, the empty alternative that makes a variant default-constructible, with its
 * six comparison operators and its `std::hash` specialisation. Every monostate equals
 * every other, so the operators are constants.
 */
module Monostate {

  datatype Monostate = Monostate

  /** operator<: no monostate is below another. */
  function Less(a: Monostate, b: Monostate): (r: bool)
    ensures !r
  {
    false
  }

  /** operator>. */
  function Greater(a: Monostate, b: Monostate): (r: bool)
    ensures r == Less(b, a)
  {
    false
  }

  /** operator==: all monostates are the same value. */
  function Equal(a: Monostate, b: Monostate): (r: bool)
    ensures r <==> a == b
  {
    true
  }

  /** operator!=. */
  function NotEqual(a: Monostate, b: Monostate): (r: bool)
    ensures r <==> !Equal(a, b)
  {
    false
  }

  /** operator<=. */
  function LessEq(a: Monostate, b: Monostate): (r: bool)
    ensures r <==> Less(a, b) || Equal(a, b)
  {
    true
  }

  /** operator>=. */
  function GreaterEq(a: Monostate, b: Monostate): (r: bool)
    ensures r <==> Greater(a, b) || Equal(a, b)
  {
    true
  }

  /** std::hash<monostate>: the constant 42, so equal monostates hash alike. */
  function Hash(m: Monostate): (r: nat)
    ensures r == 42
    ensures forall other: Monostate :: Equal(m, other) ==> r == Hash(other)
  {
    42
  }
}

/** An IP address reduced to its family and its exact integer value. Text
    parsing and rendering are not part of this model: an address arrives here
    already converted. */
module Addresses {
  import opened Bits

  /** The largest IPv4 value, `IPv4MAX` in index.js. */
  const IPv4Max: nat := 0xffff_ffff

  /** The largest IPv6 value, `IPv6MAXbig` in index.js. */
  const IPv6Max: nat := 0xffff_ffff_ffff_ffff_ffff_ffff_ffff_ffff

  datatype Version = V4 | V6 {

    /** Number of bits in an address of this family. */
    function Width(): nat
    {
      match this
      case V4 => 32
      case V6 => 128
    }

    function Max(): nat
    {
      match this
      case V4 => IPv4Max
      case V6 => IPv6Max
    }
  }

  /** The family maxima are all-ones words of the family's width. */
  lemma MaxIsAllOnes(v: Version)
    ensures v.Max() + 1 == Pow2(v.Width())
  {
    Pow2Values();
  }

  /** An address: its family and its value; valid when the value fits the family. */
  datatype Address = Address(version: Version, value: nat) {
    predicate Valid()
    {
      value <= version.Max()
    }
  }
}

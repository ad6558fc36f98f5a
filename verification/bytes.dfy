/** Bytes and bit strings as the C++ program stores them. */
module Bytes {

  /** The value of one 8-bit unit (a `char` or `unsigned char` of the source). */
  type Byte = b: int | 0 <= b < 256

  /** The value a byte has when read as a signed `char` (two's complement),
      which is how `char` behaves on the x86 and x86-64 ABIs. */
  function SignedChar(b: Byte): (v: int)
    ensures -128 <= v < 128
    ensures v == b || v == b - 256
    ensures v < 0 <==> b >= 128
  {
    if b < 128 then b else b - 256
  }

  /** The program keeps encoded bits as a `std::string` of characters. */
  predicate IsBitString(s: string) {
    forall i :: 0 <= i < |s| ==> s[i] == '0' || s[i] == '1'
  }

  /** `n` padding characters '0'. */
  function Zeros(n: nat): (z: string)
    ensures |z| == n
    ensures forall i :: 0 <= i < n ==> z[i] == '0'
  {
    if n == 0 then [] else Zeros(n - 1) + ['0']
  }
}

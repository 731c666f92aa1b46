/** The fixed-size byte buffers of a request (boa-0.94.13/src/globals.h). */
module Buffers {
  const BUFFER_SIZE: nat := 8192

  /** `memcpy` into a buffer. */
  method Store(a: array<char>, at: nat, s: string)
    requires at + |s| <= a.Length
    modifies a
    ensures a[at..at + |s|] == s
    ensures forall i | 0 <= i < a.Length && !(at <= i < at + |s|) :: a[i] == old(a[i])
  {
    forall i | 0 <= i < |s| {
      a[at + i] := s[i];
    }
  }
}

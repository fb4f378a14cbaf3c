/** The byte copies of kernel/src/libs/klibc.cpp. */
module Klibc {

  /** `n` bytes at `dest` replaced by those of `s` at `src`, all read before any is written. */
  function Copied(d: seq<bv8>, dest: nat, s: seq<bv8>, src: nat, n: nat): (r: seq<bv8>)
    requires dest + n <= |d| && src + n <= |s|
    ensures |r| == |d|
  {
    d[..dest] + s[src..src + n] + d[dest + n..]
  }

  /** `memcpy` between two buffers. */
  method Memcpy(d: array<bv8>, dest: nat, s: array<bv8>, src: nat, n: nat)
    requires d != s && dest + n <= d.Length && src + n <= s.Length
    modifies d
    ensures d[..] == Copied(old(d[..]), dest, s[..], src, n)
  {
    for i := 0 to n
      invariant forall k | 0 <= k < d.Length :: d[k] == if dest <= k < dest + i then s[src + k - dest] else old(d[k])
    {
      d[dest + i] := s[src + i];
    }
  }

  /** `memmove` within one buffer: the copy runs upwards or downwards so that no byte is lost. */
  method Memmove(a: array<bv8>, dest: nat, src: nat, n: nat)
    requires dest + n <= a.Length && src + n <= a.Length
    modifies a
    ensures a[..] == Copied(old(a[..]), dest, old(a[..]), src, n)
  {
    if src > dest {
      for i := 0 to n
        invariant forall k | 0 <= k < a.Length :: a[k] == if dest <= k < dest + i then old(a[src + k - dest]) else old(a[k])
      {
        a[dest + i] := a[src + i];
      }
    } else if src < dest {
      for i := n downto 0
        invariant forall k | 0 <= k < a.Length :: a[k] == if dest + i <= k < dest + n then old(a[src + k - dest]) else old(a[k])
      {
        a[dest + i] := a[src + i];
      }
    }
  }
}

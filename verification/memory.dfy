/** memcpy and memset, on arrays of any element type. */
module Memory {

  method MemCpy<T>(dst: array<T>, at: nat, src: seq<T>)
    requires at + |src| <= dst.Length
    modifies dst
    ensures dst[..] == old(dst[..at]) + src + old(dst[at + |src|..])
  {
    for i := 0 to |src|
      invariant forall k :: 0 <= k < at || at + i <= k < dst.Length ==> dst[k] == old(dst[k])
      invariant forall k {:trigger dst[k]} :: at <= k < at + i ==> dst[k] == src[k - at]
    {
      dst[at + i] := src[i];
    }
  }

  method MemSet<T>(dst: array<T>, at: nat, val: T, len: nat)
    requires at + len <= dst.Length
    modifies dst
    ensures forall k :: at <= k < at + len ==> dst[k] == val
    ensures dst[..at] == old(dst[..at]) && dst[at + len..] == old(dst[at + len..])
  {
    for i := 0 to len
      invariant forall k :: at <= k < at + i ==> dst[k] == val
      invariant forall k :: 0 <= k < at || at + i <= k < dst.Length ==> dst[k] == old(dst[k])
    {
      dst[at + i] := val;
    }
  }
}

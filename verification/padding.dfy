/** A string cut at n characters and filled up to n with NUL: what strncpy stores. */
module Padding {
  import opened Bytes
  import opened Comparison

  function Padded(src: seq<Byte>, n: nat): (r: seq<Byte>)
    ensures |r| == n && Text(src, n) <= r
    ensures forall k :: |Text(src, n)| <= k < n ==> r[k] == 0
  {
    var u := Text(src, n);
    u + seq(n - |u|, _ => 0)
  }

  /** Text is the longest prefix without NUL. */
  lemma {:induction false} TextOfPrefix(s: seq<Byte>, u: seq<Byte>, n: nat)
    requires u <= s && |u| <= n && 0 !in u && (|u| < n ==> |u| == |s| || s[|u|] == 0)
    ensures Text(s, n) == u
    decreases n
  {
    if u == [] {
    } else {
      TextOfPrefix(s[1..], u[1..], n - 1);
    }
  }

  /** The buffer that _strncpy fills holds the same text, cut at n characters. */
  lemma PaddedText(src: seq<Byte>, n: nat)
    ensures Text(Padded(src, n), n) == Text(src, n)
    ensures |Text(src, n)| < n ==> 0 in Padded(src, n)
  {
    TextOfPrefix(Padded(src, n), Text(src, n), n);
  }
}

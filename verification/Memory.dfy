/** `mem_copy` and `mem_zero` on byte arrays. */
module Memory {
  import opened CStrings

  method MemCopy(dst: array<byte>, at: nat, src: seq<byte>)
    requires at + |src| <= dst.Length
    modifies dst
    ensures dst[..] == old(dst[..at]) + src + old(dst[at + |src|..])
  {
    var i := 0;
    while i < |src|
      invariant 0 <= i <= |src| && dst[..] == old(dst[..at]) + src[..i] + old(dst[at + i..])
    {
      dst[at + i] := src[i];
      i := i + 1;
    }
  }

  /** Two pieces, one behind the other. */
  method MemCopyBoth(dst: array<byte>, a: seq<byte>, b: seq<byte>)
    requires |a| + |b| <= dst.Length
    modifies dst
    ensures dst[..|a| + |b|] == a + b
  {
    MemCopy(dst, 0, a);
    assert dst[..|a|] == a;
    MemCopy(dst, |a|, b);
  }

  method MemZero(dst: array<byte>, from: nat, to: nat)
    requires from <= to <= dst.Length
    modifies dst
    ensures dst[..] == old(dst[..from]) + seq(to - from, _ => 0) + old(dst[to..])
  {
    var i := from;
    while i < to
      invariant from <= i <= to && dst[..] == old(dst[..from]) + seq(i - from, _ => 0) + old(dst[i..])
    {
      dst[i] := 0;
      i := i + 1;
    }
  }
}

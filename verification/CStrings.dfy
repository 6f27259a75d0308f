/** Bytes and NUL-terminated strings as the C code sees them: a block of memory and a position in it. */
module CStrings {
  type byte = b: int | 0 <= b < 0x100

  /** A terminator lies at or after `p`; what every `const char *` argument promises. */
  ghost predicate Terminated(m: seq<byte>, p: nat) {
    exists k :: p <= k < |m| && m[k] == 0
  }

  /** The number of bytes before the terminator (`str_length`). */
  function StrLen(m: seq<byte>, p: nat): (n: nat)
    requires Terminated(m, p)
    ensures p + n < |m| && m[p + n] == 0
    ensures forall k :: p <= k < p + n ==> m[k] != 0
    decreases |m| - p
  {
    if m[p] == 0 then 0 else 1 + StrLen(m, p + 1)
  }

  /** The string that starts at the front of `m`. */
  function Text(m: seq<byte>): (s: seq<byte>)
    requires Terminated(m, 0)
    ensures 0 !in s && s + [0] <= m
  {
    m[..StrLen(m, 0)]
  }

  /** `Text` is the only NUL-free prefix of `m` that a NUL follows. */
  lemma TextIs(m: seq<byte>, s: seq<byte>)
    requires 0 !in s && s + [0] <= m
    ensures Terminated(m, 0) && Text(m) == s
  {
    assert m[|s|] == 0;
    assert forall k :: 0 <= k < |s| ==> m[k] == s[k] && s[k] in s;
    assert StrLen(m, 0) == |s|;
  }

  /** What stands before `p` does not matter to a string that starts at `p`. */
  lemma {:induction false} StrLenShift(m: seq<byte>, p: nat, q: nat)
    requires q <= p && Terminated(m, p) && forall k :: q <= k < p ==> m[k] != 0
    ensures Terminated(m, q) && StrLen(m, q) == p - q + StrLen(m, p)
    decreases p - q
  {
    if q < p {
      StrLenShift(m, p, q + 1);
    }
  }

  function Zeros(n: nat): seq<byte> {
    seq(n, _ => 0)
  }

  /** The first `n` bytes of `s`, or all of it. */
  function Front(s: seq<byte>, n: nat): (r: seq<byte>) {
    if |s| <= n then s else s[..n]
  }
}

/** Bounded copies of NUL-terminated UTF-8 strings that never leave half a character behind. */
module Utf8Copy {
  import opened CStrings
  import opened Utf8

  predicate IsStart(b: byte) {
    !(0x80 <= b <= 0xBF)
  }

  function RewindFrom(s: seq<byte>, cursor: nat): (c: nat)
    requires cursor <= |s|
    ensures c <= cursor && (cursor > 0 ==> c < cursor)
    ensures c == 0 || IsStart(s[c])
    ensures forall k :: c < k < cursor ==> !IsStart(s[k])
  {
    if cursor == 0 then 0
    else if IsStart(s[cursor - 1]) then cursor - 1
    else RewindFrom(s, cursor - 1)
  }

  /** `str_utf8_rewind`: back to the nearest byte that can start a character, or to the front. */
  method Rewind(str: seq<byte>, cursor: nat) returns (c: nat)
    requires cursor <= |str|
    ensures c == RewindFrom(str, cursor)
  {
    c := cursor;
    while c > 0
      invariant 0 <= c <= cursor && RewindFrom(str, c) == RewindFrom(str, cursor)
    {
      c := c - 1;
      if IsStart(str[c]) {
        break;
      }
    }
  }

  /** The text `s` without the character it ends in, if that one does not decode. */
  function Repair(s: seq<byte>): (r: seq<byte>)
    requires 0 !in s
    ensures r <= s
  {
    var m := s + [0];
    assert m[|s|] == 0;
    var i := RewindFrom(s, |s|);
    if s != [] && DecodeAt(m, i).code == ERROR then s[..i] else s
  }

  lemma DecodeTailAgrees(m: seq<byte>, t: seq<byte>, p: nat, needed: nat, code: int, lower: byte, upper: byte)
    requires t <= m && p < |t| && t[|t| - 1] == 0 && 0x80 <= lower && needed <= 3
    ensures Terminated(m, p) && Terminated(t, p)
    ensures DecodeTail(m, p, needed, code, lower, upper) == DecodeTail(t, p, needed, code, lower, upper)
    decreases needed
  {
    assert m[|t| - 1] == 0;
    if needed > 0 && lower <= t[p] <= upper {
      DecodeTailAgrees(m, t, p + 1, needed - 1, code + Low(t[p]) * Shift(needed - 1), 0x80, 0xBF);
    }
  }

  /** Decoding depends on nothing behind the terminator. */
  lemma DecodeAgrees(m: seq<byte>, t: seq<byte>, p: nat)
    requires t <= m && p < |t| && t[|t| - 1] == 0
    ensures Terminated(m, p) && Terminated(t, p) && DecodeAt(m, p) == DecodeAt(t, p)
  {
    assert m[|t| - 1] == 0;
    var b: int := t[p];
    if 0xC2 <= b <= 0xDF {
      DecodeTailAgrees(m, t, p + 1, 1, (b - 0xC0) * 0x40, Lower(b), Upper(b));
    } else if 0xE0 <= b <= 0xEF {
      DecodeTailAgrees(m, t, p + 1, 2, (b - 0xE0) * 0x1000, Lower(b), Upper(b));
    } else if 0xF0 <= b <= 0xF4 {
      DecodeTailAgrees(m, t, p + 1, 3, (b - 0xF0) * 0x40000, Lower(b), Upper(b));
    }
  }

  lemma RewindAgrees(m: seq<byte>, s: seq<byte>, c: nat)
    requires s <= m && c <= |s|
    ensures RewindFrom(m, c) == RewindFrom(s, c)
  {
  }

  /** `str_utf8_fix_truncation`. */
  method FixTruncation(str: array<byte>) returns (n: nat)
    requires Terminated(str[..], 0)
    modifies str
    ensures Terminated(str[..], 0) && Text(str[..]) == Repair(old(Text(str[..]))) && n == |Text(str[..])|
  {
    ghost var was := Text(str[..]);
    var len := StrLen(str[..], 0);
    if len > 0 {
      var last := Rewind(str[..], len);
      RewindAgrees(str[..], was, len);
      DecodeAgrees(str[..], was + [0], last);
      var code, _ := Decode(str[..], last);
      if code == ERROR {
        str[last] := 0;
        TextIs(str[..], was[..last]);
        return last;
      }
    }
    return len;
  }

  /** Copies at most `n` bytes of `src` and a terminator, as the first call on an empty `dst` does. */
  method StrNCat(dst: array<byte>, src: seq<byte>, n: nat)
    requires Terminated(src, 0) && n < dst.Length && dst[0] == 0
    modifies dst
    ensures Terminated(dst[..], 0)
    ensures Text(dst[..]) == Front(Text(src), n)
  {
    var i := 0;
    while i < n && src[i] != 0
      invariant i <= n && i <= StrLen(src, 0) && dst[..i] == src[..i]
    {
      dst[i] := src[i];
      i := i + 1;
    }
    dst[i] := 0;
    assert dst[..i + 1] == src[..i] + [0];
    TextIs(dst[..], src[..i]);
  }

  // ----- what that means for valid text -----

  /** `r` is the longest prefix of `s` that is valid UTF-8 and fits into `n` bytes. */
  ghost predicate LongestValidPrefix(s: seq<byte>, n: nat, r: seq<byte>) {
    && r <= s && |r| <= n && Valid(r)
    && forall v :: v <= s && |v| <= n && Valid(v) ==> v <= r
  }

  lemma {:induction false} EncodeAllAppend(a: seq<int>, b: seq<int>)
    ensures EncodeAll(a + b) == EncodeAll(a) + EncodeAll(b)
  {
    if a == [] {
      assert a + b == b;
    } else {
      assert (a + b)[1..] == a[1..] + b;
      EncodeAllAppend(a[1..], b);
    }
  }

  lemma NoNulInside(cps: seq<int>)
    requires Clean(cps)
    ensures 0 !in EncodeAll(cps)
  {
    var m := EncodeAll(cps) + [0];
    assert m[|EncodeAll(cps)|] == 0 && m[0..] == m;
    CodePointsOfEncoded(m, 0, cps);
    assert forall k :: 0 <= k < |EncodeAll(cps)| ==> m[k] == EncodeAll(cps)[k];
  }

  /** Encodings are prefix free, so code points line up from the front. */
  lemma {:induction false} PrefixOfEncoded(ds: seq<int>, cps: seq<int>)
    requires Clean(ds) && Clean(cps) && EncodeAll(ds) <= EncodeAll(cps)
    ensures ds <= cps
  {
    if ds != [] {
      var m := EncodeAll(cps) + [0];
      assert m[|EncodeAll(cps)|] == 0 && m[0..] == m;
      assert ds[0] in ds;
      EncodeNotEmpty(ds[0]);
      var q := FirstDecodes(m, 0, ds);
      var q' := FirstDecodes(m, 0, cps);
      SameTail(m, q, ds[1..], cps[1..]);
      PrefixOfEncoded(ds[1..], cps[1..]);
    }
  }

  lemma EncodeNotEmpty(c: int)
    requires Scalar(c)
    ensures 1 <= |Encode(c)| <= 4 && IsStart(Encode(c)[0])
    ensures forall k :: 0 < k < |Encode(c)| ==> !IsStart(Encode(c)[k])
  {
  }

  lemma SameTail(m: seq<byte>, q: nat, ds: seq<int>, cps: seq<int>)
    requires q <= |m| && EncodeAll(ds) <= m[q..] && EncodeAll(cps) <= m[q..] && |EncodeAll(ds)| <= |EncodeAll(cps)|
    ensures EncodeAll(ds) <= EncodeAll(cps)
  {
  }

  lemma RewindTo(s: seq<byte>, i: nat, cursor: nat)
    requires i < cursor <= |s| && IsStart(s[i]) && forall k :: i < k < cursor ==> !IsStart(s[k])
    ensures RewindFrom(s, cursor) == i
  {
  }

  /** A text that ends inside, or at the end of, the encoding of `c`. */
  lemma RepairLast(a: seq<byte>, c: int, n: nat)
    requires 0 !in a && Scalar(c) && c != 0 && 0 < n <= |Encode(c)|
    requires 0 !in a + Encode(c)[..n]
    ensures Repair(a + Encode(c)[..n]) == if n == |Encode(c)| then a + Encode(c) else a
  {
    var s := a + Encode(c)[..n];
    var m := s + [0];
    assert m[|s|] == 0;
    EncodeNotEmpty(c);
    assert forall k :: |a| <= k < |s| ==> s[k] == Encode(c)[k - |a|];
    RewindTo(s, |a|, |s|);
    if n == |Encode(c)| {
      assert m[|a|..|a| + n] == Encode(c);
      DecodeOfEncode(m, |a|, c);
    } else if DecodeAt(m, |a|).code != ERROR {
      ProperPrefixFails(m, a, c, n);
    }
    assert s[..|a|] == a;
  }

  lemma ProperPrefixFails(m: seq<byte>, a: seq<byte>, c: int, n: nat)
    requires Scalar(c) && c != 0 && 0 < n < |Encode(c)|
    requires 0 !in a + Encode(c)[..n] && m == a + Encode(c)[..n] + [0]
    ensures Terminated(m, |a|) && DecodeAt(m, |a|).code == ERROR
  {
    assert m[|a| + n] == 0;
    assert m[|a|] == Encode(c)[0];
    if DecodeAt(m, |a|).code != ERROR {
      var d := DecodeAt(m, |a|);
      DecodeIsCanonical(m, |a|);
      EncodeNotEmpty(c);
      EncodeNotEmpty(d.code);
    }
  }

  lemma EncodeAllMonotone(cps: seq<int>, i: nat, j: nat)
    requires i <= j <= |cps|
    ensures EncodeAll(cps[..i]) <= EncodeAll(cps[..j])
  {
    assert cps[..j] == cps[..i] + cps[i..j];
    EncodeAllAppend(cps[..i], cps[i..j]);
  }

  lemma EncodeAllSnoc(cps: seq<int>, k: nat)
    requires k < |cps|
    ensures EncodeAll(cps[..k + 1]) == EncodeAll(cps[..k]) + Encode(cps[k])
  {
    assert cps[..k + 1] == cps[..k] + [cps[k]];
    EncodeAllAppend(cps[..k], [cps[k]]);
    assert EncodeAll([cps[k]]) == Encode(cps[k]) + EncodeAll([]);
  }

  /** The code point in whose encoding byte `n - 1` lies. */
  lemma {:induction false} CutAt(cps: seq<int>, m: nat, n: nat) returns (k: nat)
    requires m <= |cps| && 0 < n <= |EncodeAll(cps[..m])|
    ensures k < m && |EncodeAll(cps[..k])| < n <= |EncodeAll(cps[..k + 1])|
  {
    if m > 0 && n <= |EncodeAll(cps[..m - 1])| {
      k := CutAt(cps, m - 1, n);
    } else {
      assert cps[..0] == [];
      k := m - 1;
    }
  }

  lemma LongerByOne(cps: seq<int>, k: nat)
    requires k < |cps| && Clean(cps)
    ensures |EncodeAll(cps[..k])| < |EncodeAll(cps[..k + 1])|
  {
    EncodeAllSnoc(cps, k);
    EncodeNotEmpty(cps[k]);
  }

  /** A cut in the encoding of the code point with number `k`. */
  lemma CutInside(cps: seq<int>, k: nat, n: nat, s: seq<byte>, a: seq<byte>)
    requires k < |cps| && s == EncodeAll(cps) && a == EncodeAll(cps[..k]) && |a| <= n <= |EncodeAll(cps[..k + 1])|
    ensures a <= s && n <= |s| && n - |a| <= |Encode(cps[k])|
    ensures s[..n] == a + Encode(cps[k])[..n - |a|]
  {
    assert cps[..|cps|] == cps;
    EncodeAllSnoc(cps, k);
    EncodeAllMonotone(cps, k + 1, |cps|);
  }

  lemma RepairInside(a: seq<byte>, c: int, e: seq<byte>, m: nat, t: seq<byte>)
    requires Scalar(c) && c != 0 && e == Encode(c) && 0 < m <= |e| && t == a + e[..m] && 0 !in t
    ensures Repair(t) == if m == |e| then a + e else a
  {
    assert forall x <- a :: x in t;
    RepairLast(a, c, m);
  }

  lemma RepairsTo(a: seq<byte>, b: seq<byte>, c: int, e: seq<byte>, m: nat, t: seq<byte>)
    requires Scalar(c) && c != 0 && e == Encode(c) && 0 < m <= |e| && t == a + e[..m] && 0 !in t && b == a + e
    ensures Repair(t) == if |t| == |b| then b else a
  {
    RepairInside(a, c, e, m, t);
  }

  lemma FrontHasNoNul(s: seq<byte>, n: nat)
    requires 0 !in s && n <= |s|
    ensures 0 !in s[..n]
  {
  }

  /** What is repaired is a whole number of code points: `k`, or one more if the cut is at its end. */
  lemma RepairAt(cps: seq<int>, k: nat, n: nat, s: seq<byte>, a: seq<byte>, b: seq<byte>)
    requires Clean(cps) && k < |cps| && s == EncodeAll(cps)
    requires a == EncodeAll(cps[..k]) && b == EncodeAll(cps[..k + 1]) && |a| < n <= |b|
    ensures n <= |s| && 0 !in s[..n] && Repair(s[..n]) == if n == |b| then b else a
  {
    CutInside(cps, k, n, s, a);
    NoNulInside(cps);
    FrontHasNoNul(s, n);
    EncodeAllSnoc(cps, k);
    RepairsTo(a, b, cps[k], Encode(cps[k]), n - |a|, s[..n]);
  }

  lemma RepairCut(cps: seq<int>, n: nat) returns (k: nat)
    requires Clean(cps) && n <= |EncodeAll(cps)|
    ensures k <= |cps| && 0 !in EncodeAll(cps)[..n] && Repair(EncodeAll(cps)[..n]) == EncodeAll(cps[..k])
    ensures |EncodeAll(cps[..k])| <= n && (k < |cps| ==> n < |EncodeAll(cps[..k + 1])|)
  {
    assert cps[..|cps|] == cps && cps[..0] == [];
    k := 0;
    if n > 0 {
      k := CutAt(cps, |cps|, n);
      RepairAt(cps, k, n, EncodeAll(cps), EncodeAll(cps[..k]), EncodeAll(cps[..k + 1]));
      if n == |EncodeAll(cps[..k + 1])| {
        k := k + 1;
      }
    }
    if k < |cps| {
      LongerByOne(cps, k);
    }
  }

  lemma WithinCut(cps: seq<int>, k: nat, l: nat, ds: seq<int>)
    requires Clean(cps) && Clean(ds) && k <= |cps| && EncodeAll(ds) <= EncodeAll(cps) && |EncodeAll(ds)| <= l
    requires k < |cps| ==> l < |EncodeAll(cps[..k + 1])|
    ensures EncodeAll(ds) <= EncodeAll(cps[..k])
  {
    PrefixOfEncoded(ds, cps);
    assert ds == cps[..|ds|];
    if |ds| <= k {
      EncodeAllMonotone(cps, |ds|, k);
    } else {
      EncodeAllMonotone(cps, k + 1, |ds|);
    }
  }

  /** Cutting valid text anywhere and repairing it leaves the longest valid prefix that fits. */
  lemma RepairIsLongest(s: seq<byte>, n: nat)
    requires Valid(s)
    ensures 0 !in Front(s, n) && LongestValidPrefix(s, n, Repair(Front(s, n)))
  {
    var cps :| Clean(cps) && EncodeAll(cps) == s;
    var l := |Front(s, n)|;
    assert s[..l] == Front(s, n);
    var k := RepairCut(cps, l);
    EncodeAllMonotone(cps, k, |cps|);
    assert cps[..|cps|] == cps && Clean(cps[..k]);
    forall v | v <= s && |v| <= n && Valid(v) ensures v <= EncodeAll(cps[..k]) {
      var ds :| Clean(ds) && EncodeAll(ds) == v;
      WithinCut(cps, k, l, ds);
    }
  }

  lemma AppendIsLongest(s: seq<byte>, t: seq<byte>, n: nat)
    requires 0 !in Front(s + t, n)
    ensures Valid(s) && Valid(t) ==> LongestValidPrefix(s + t, n, Repair(Front(s + t, n)))
  {
    if Valid(s) && Valid(t) {
      var a :| Clean(a) && EncodeAll(a) == s;
      var b :| Clean(b) && EncodeAll(b) == t;
      EncodeAllAppend(a, b);
      assert Clean(a + b);
      RepairIsLongest(s + t, n);
    }
  }

  // ----- the copies -----

  lemma CutIsLongest(s: seq<byte>, n: nat)
    requires 0 !in s
    ensures 0 !in Front(s, n) && (Valid(s) ==> LongestValidPrefix(s, n, Repair(Front(s, n))))
  {
    if Valid(s) {
      RepairIsLongest(s, n);
    }
  }

  /** The bytes, cut to the size of the buffer, before a cut code point is repaired. */
  method CopyCut(dst: array<byte>, src: seq<byte>, dstSize: nat)
    requires Terminated(src, 0) && 1 <= dstSize <= dst.Length
    modifies dst
    ensures Terminated(dst[..], 0) && Text(dst[..]) == Front(Text(src), dstSize - 1)
  {
    dst[0] := 0;
    StrNCat(dst, src, dstSize - 1);
  }

  method StrCopy(dst: array<byte>, src: seq<byte>, dstSize: nat) returns (n: nat)
    requires Terminated(src, 0) && 1 <= dstSize <= dst.Length
    modifies dst
    ensures Terminated(dst[..], 0) && n == |Text(dst[..])|
    ensures Text(dst[..]) == Repair(Front(Text(src), dstSize - 1))
    ensures Valid(Text(src)) ==> LongestValidPrefix(Text(src), dstSize - 1, Text(dst[..]))
  {
    CutIsLongest(Text(src), dstSize - 1);
    CopyCut(dst, src, dstSize);
    n := FixTruncation(dst);
  }

  /** The loop: the bytes of `src`, the terminator included, go behind the text of `dst` while there is room. */
  method AppendBytes(dst: array<byte>, src: seq<byte>, dstSize: nat, ghost was: seq<byte>)
    requires Terminated(dst[..], 0) && Terminated(src, 0) && dstSize <= dst.Length && was == Text(dst[..])
    modifies dst
    ensures var whole := was + Text(src);
            if |whole| < dstSize then dst[..|whole| + 1] == whole + [0] else dst[..dstSize] == whole[..dstSize]
  {
    ghost var whole := was + Text(src);
    var s := StrLen(dst[..], 0);
    var i := 0;
    while s < dstSize
      invariant i <= |Text(src)| && s == |was| + i <= |whole| && (s <= dstSize || i == 0)
      invariant dst[..s] == whole[..s]
    {
      dst[s] := src[i];
      if src[i] == 0 {
        break;
      }
      s := s + 1;
      i := i + 1;
    }
  }

  /** The bytes, cut to the size of the buffer, before a cut code point is repaired. */
  method AppendCut(dst: array<byte>, src: seq<byte>, dstSize: nat)
    requires Terminated(dst[..], 0) && Terminated(src, 0) && 1 <= dstSize <= dst.Length
    modifies dst
    ensures Terminated(dst[..], 0) && Text(dst[..]) == Front(old(Text(dst[..])) + Text(src), dstSize - 1)
  {
    ghost var f := Front(Text(dst[..]) + Text(src), dstSize - 1);
    AppendBytes(dst, src, dstSize, Text(dst[..]));
    dst[dstSize - 1] := 0;
    assert dst[..|f| + 1] == f + [0];
    TextIs(dst[..], f);
  }

  method StrAppend(dst: array<byte>, src: seq<byte>, dstSize: nat)
    requires Terminated(dst[..], 0) && Terminated(src, 0) && 1 <= dstSize <= dst.Length
    modifies dst
    ensures Terminated(dst[..], 0)
    ensures Text(dst[..]) == Repair(Front(old(Text(dst[..])) + Text(src), dstSize - 1))
    ensures old(Valid(Text(dst[..]))) && Valid(Text(src)) ==>
              LongestValidPrefix(old(Text(dst[..])) + Text(src), dstSize - 1, Text(dst[..]))
  {
    AppendIsLongest(Text(dst[..]), Text(src), dstSize - 1);
    AppendCut(dst, src, dstSize);
    var _ := FixTruncation(dst);
  }
}

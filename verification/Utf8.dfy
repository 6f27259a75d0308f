/** UTF-8 as section 4 of RFC 3629 defines it, and the decoder, encoder and checker of the base library. */
module Utf8 {
  import opened CStrings

  // ----- the encoding -----

  /** Unicode scalar values: every code point but the surrogates. */
  predicate Scalar(c: int) {
    0 <= c < 0xD800 || 0xE000 <= c <= 0x10FFFF
  }

  /** The bytes `str_utf8_encode` writes, for any `int`; none beyond U+10FFFF. */
  function Encode(c: int): (s: seq<byte>) {
    if c <= 0x7F then [c % 0x100]
    else if c <= 0x7FF then [0xC0 + c / 0x40, 0x80 + c % 0x40]
    else if c <= 0xFFFF then [0xE0 + c / 0x1000, 0x80 + c / 0x40 % 0x40, 0x80 + c % 0x40]
    else if c <= 0x10FFFF then [0xF0 + c / 0x40000, 0x80 + c / 0x1000 % 0x40, 0x80 + c / 0x40 % 0x40, 0x80 + c % 0x40]
    else []
  }

  method EncodeInto(ptr: array<byte>, chr: int) returns (n: nat)
    requires ptr.Length >= 4
    modifies ptr
    ensures n == |Encode(chr)| && ptr[..] == Encode(chr) + old(ptr[n..])
  {
    if chr <= 0x7F {
      ptr[0] := chr % 0x100;
      n := 1;
    } else if chr <= 0x7FF {
      ptr[0] := 0xC0 + chr / 0x40 % 0x20;
      ptr[1] := 0x80 + chr % 0x40;
      n := 2;
    } else if chr <= 0xFFFF {
      ptr[0] := 0xE0 + chr / 0x1000 % 0x10;
      ptr[1] := 0x80 + chr / 0x40 % 0x40;
      ptr[2] := 0x80 + chr % 0x40;
      n := 3;
    } else if chr <= 0x10FFFF {
      ptr[0] := 0xF0 + chr / 0x40000 % 0x08;
      ptr[1] := 0x80 + chr / 0x1000 % 0x40;
      ptr[2] := 0x80 + chr / 0x40 % 0x40;
      ptr[3] := 0x80 + chr % 0x40;
      n := 4;
    } else {
      n := 0;
    }
  }

  // ----- the decoder -----

  /** A code point, or -1 for an error, and the position after the bytes that were consumed. */
  datatype Decoded = Decoded(code: int, next: nat)

  const ERROR := -1

  /** The payload of a continuation byte. */
  function Low(b: byte): int { b - 0x80 }

  function Shift(k: nat): int {
    if k == 0 then 1 else if k == 1 then 0x40 else if k == 2 then 0x1000 else 0x40000
  }

  function Lower(lead: byte): byte { if lead == 0xE0 then 0xA0 else if lead == 0xF0 then 0x90 else 0x80 }

  function Upper(lead: byte): byte { if lead == 0xED then 0x9F else if lead == 0xF4 then 0x8F else 0xBF }

  function DecodeAt(m: seq<byte>, p: nat): (d: Decoded)
    requires Terminated(m, p)
    ensures p < d.next && (d.code != 0 ==> Terminated(m, d.next))
  {
    var b: int := m[p];
    if b <= 0x7F then Decoded(b, p + 1)
    else if 0xC2 <= b <= 0xDF then DecodeTail(m, p + 1, 1, (b - 0xC0) * 0x40, Lower(b), Upper(b))
    else if 0xE0 <= b <= 0xEF then DecodeTail(m, p + 1, 2, (b - 0xE0) * 0x1000, Lower(b), Upper(b))
    else if 0xF0 <= b <= 0xF4 then DecodeTail(m, p + 1, 3, (b - 0xF0) * 0x40000, Lower(b), Upper(b))
    else Decoded(ERROR, p + 1)
  }

  /** `needed` more bytes; only the first of them is held to tighter bounds. */
  function DecodeTail(m: seq<byte>, p: nat, needed: nat, code: int, lower: byte, upper: byte): (d: Decoded)
    requires Terminated(m, p) && 0x80 <= lower && needed <= 3
    ensures p <= d.next && Terminated(m, d.next)
    decreases needed
  {
    if needed == 0 then Decoded(code, p)
    else if lower <= m[p] <= upper then
      DecodeTail(m, p + 1, needed - 1, code + Low(m[p]) * Shift(needed - 1), 0x80, 0xBF)
    else Decoded(ERROR, p)
  }

  /** The state machine of the source; it never reads past the terminator. */
  method Decode(m: seq<byte>, p: nat) returns (code: int, next: nat)
    requires Terminated(m, p)
    ensures Decoded(code, next) == DecodeAt(m, p)
  {
    var lower: byte, upper: byte := 0x80, 0xBF;
    var codePoint, seen, needed := 0, 0, 0;
    next := p;
    while true
      invariant Terminated(m, next)
      invariant 0 <= seen <= needed <= 3 && 0x80 <= lower
      invariant needed == 0 ==> next == p && codePoint == 0 && lower == 0x80 && upper == 0xBF
      invariant needed != 0 ==> seen < needed
      invariant needed != 0 ==> DecodeTail(m, next, needed - seen, codePoint, lower, upper) == DecodeAt(m, p)
      decreases if needed == 0 then 4 else needed - seen
    {
      var b: int := m[next];
      next := next + 1;
      if needed == 0 {
        if b <= 0x7F {
          return b, next;
        } else if 0xC2 <= b <= 0xDF {
          needed := 1;
          codePoint := b - 0xC0;
        } else if 0xE0 <= b <= 0xEF {
          if b == 0xE0 { lower := 0xA0; }
          if b == 0xED { upper := 0x9F; }
          needed := 2;
          codePoint := b - 0xE0;
        } else if 0xF0 <= b <= 0xF4 {
          if b == 0xF0 { lower := 0x90; }
          if b == 0xF4 { upper := 0x8F; }
          needed := 3;
          codePoint := b - 0xF0;
        } else {
          return ERROR, next;
        }
        codePoint := codePoint * Shift(needed);
        continue;
      }
      if !(lower <= b <= upper) {
        next := next - 1;
        return ERROR, next;
      }
      lower, upper := 0x80, 0xBF;
      seen := seen + 1;
      codePoint := codePoint + (b - 0x80) * Shift(needed - seen);
      if seen != needed {
        continue;
      }
      return codePoint, next;
    }
  }

  /** Base-64 digits of a code point, most significant first. */
  lemma Digits(c: int, d3: int, d2: int, d1: int, d0: int)
    requires c == d3 * 0x40000 + d2 * 0x1000 + d1 * 0x40 + d0
    requires 0 <= d2 < 0x40 && 0 <= d1 < 0x40 && 0 <= d0 < 0x40
    ensures c / 0x40000 == d3 && c / 0x1000 == d3 * 0x40 + d2 && c / 0x40 == d3 * 0x1000 + d2 * 0x40 + d1
    ensures c / 0x1000 % 0x40 == d2 && c / 0x40 % 0x40 == d1 && c % 0x40 == d0
  {
  }

  /** What an error-free tail has read. */
  lemma TailReads(m: seq<byte>, p: nat, needed: nat, code: int, lower: byte, upper: byte)
    requires Terminated(m, p) && 0x80 <= lower && upper <= 0xBF && needed <= 3
    ensures var d := DecodeTail(m, p, needed, code, lower, upper);
            var ok := p + needed <= |m|
                      && (needed >= 1 ==> lower <= m[p] <= upper)
                      && (needed >= 2 ==> 0x80 <= m[p + 1] <= 0xBF)
                      && (needed >= 3 ==> 0x80 <= m[p + 2] <= 0xBF);
            && (!ok ==> d.code == ERROR)
            && (ok ==> d.next == p + needed && d.code == code
                        + (if needed >= 1 then Low(m[p]) * Shift(needed - 1) else 0)
                        + (if needed >= 2 then Low(m[p + 1]) * Shift(needed - 2) else 0)
                        + (if needed >= 3 then Low(m[p + 2]) else 0))
    decreases needed
  {
    if needed > 0 && lower <= m[p] <= upper {
      TailReads(m, p + 1, needed - 1, code + Low(m[p]) * Shift(needed - 1), 0x80, 0xBF);
    }
  }

  /** The number of bytes that lead byte `b` starts, and whether those at `p` are well formed. */
  function Width(b: byte): nat {
    if b <= 0x7F then 1 else if 0xC2 <= b <= 0xDF then 2 else if 0xE0 <= b <= 0xEF then 3
    else if 0xF0 <= b <= 0xF4 then 4 else 0
  }

  predicate WellFormed(m: seq<byte>, p: nat) {
    && p < |m| && Width(m[p]) > 0 && p + Width(m[p]) <= |m|
    && (Width(m[p]) >= 2 ==> Lower(m[p]) <= m[p + 1] <= Upper(m[p]))
    && (Width(m[p]) >= 3 ==> 0x80 <= m[p + 2] <= 0xBF)
    && (Width(m[p]) == 4 ==> 0x80 <= m[p + 3] <= 0xBF)
  }

  function Value(m: seq<byte>, p: nat): int
    requires WellFormed(m, p)
  {
    var b: int := m[p];
    match Width(b)
    case 1 => b
    case 2 => (b - 0xC0) * 0x40 + Low(m[p + 1])
    case 3 => (b - 0xE0) * 0x1000 + Low(m[p + 1]) * 0x40 + Low(m[p + 2])
    case _ => (b - 0xF0) * 0x40000 + Low(m[p + 1]) * 0x1000 + Low(m[p + 2]) * 0x40 + Low(m[p + 3])
  }

  lemma DecodeReads(m: seq<byte>, p: nat)
    requires Terminated(m, p)
    ensures if WellFormed(m, p) then DecodeAt(m, p) == Decoded(Value(m, p), p + Width(m[p])) && Value(m, p) >= 0
            else DecodeAt(m, p).code == ERROR
  {
    var b: int := m[p];
    if 0xC2 <= b <= 0xDF {
      TailReads(m, p + 1, 1, (b - 0xC0) * 0x40, Lower(b), Upper(b));
    } else if 0xE0 <= b <= 0xEF {
      TailReads(m, p + 1, 2, (b - 0xE0) * 0x1000, Lower(b), Upper(b));
    } else if 0xF0 <= b <= 0xF4 {
      TailReads(m, p + 1, 3, (b - 0xF0) * 0x40000, Lower(b), Upper(b));
    }
  }

  /** A well-formed sequence is the encoding of its value, a scalar, and encodings are well formed. */
  lemma WellFormedIsEncoded(m: seq<byte>, p: nat)
    requires WellFormed(m, p)
    ensures Scalar(Value(m, p)) && Encode(Value(m, p)) == m[p..p + Width(m[p])]
  {
    var w, c := Width(m[p]), Value(m, p);
    if w == 2 {
      Digits(c, 0, 0, m[p] - 0xC0, Low(m[p + 1]));
    } else if w == 3 {
      Digits(c, 0, m[p] - 0xE0, Low(m[p + 1]), Low(m[p + 2]));
    } else if w == 4 {
      Digits(c, m[p] - 0xF0, Low(m[p + 1]), Low(m[p + 2]), Low(m[p + 3]));
    }
  }

  lemma DigitsAreWellFormed(m: seq<byte>, p: nat, d3: int, d2: int, d1: int, d0: int)
    requires 0 <= d3 && 0 <= d2 < 0x40 && 0 <= d1 < 0x40 && 0 <= d0 < 0x40
    requires Scalar(d3 * 0x40000 + d2 * 0x1000 + d1 * 0x40 + d0)
    requires d3 * 0x1000 + d2 * 0x40 + d1 >= 0x20
    requires var w := if d3 == 0 && d2 < 0x10 then 3 else 4;
             p + w <= |m| && (w == 3 ==> m[p..p + 3] == [0xE0 + d2, 0x80 + d1, 0x80 + d0])
             && (w == 4 ==> m[p..p + 4] == [0xF0 + d3, 0x80 + d2, 0x80 + d1, 0x80 + d0])
    ensures WellFormed(m, p) && Value(m, p) == d3 * 0x40000 + d2 * 0x1000 + d1 * 0x40 + d0
    ensures Width(m[p]) == if d3 == 0 && d2 < 0x10 then 3 else 4
  {
    var w := if d3 == 0 && d2 < 0x10 then 3 else 4;
    var e := m[p..p + w];
    assert forall i :: 0 <= i < w ==> e[i] == m[p + i];
  }

  lemma DigitsOf(c: int) returns (d3: int, d2: int, d1: int, d0: int)
    ensures c == d3 * 0x40000 + d2 * 0x1000 + d1 * 0x40 + d0
    ensures 0 <= d2 < 0x40 && 0 <= d1 < 0x40 && 0 <= d0 < 0x40
    ensures c / 0x40000 == d3 && c / 0x1000 == d3 * 0x40 + d2
    ensures c / 0x1000 % 0x40 == d2 && c / 0x40 % 0x40 == d1 && c % 0x40 == d0
  {
    d0, d1, d2, d3 := c % 0x40, c / 0x40 % 0x40, c / 0x40 / 0x40 % 0x40, c / 0x40 / 0x40 / 0x40;
    Digits(c, d3, d2, d1, d0);
  }

  lemma EncodedIsWellFormed(m: seq<byte>, p: nat, c: int)
    requires Scalar(c) && p + |Encode(c)| <= |m| && m[p..p + |Encode(c)|] == Encode(c)
    ensures WellFormed(m, p) && Value(m, p) == c && Width(m[p]) == |Encode(c)|
  {
    var n := |Encode(c)|;
    if n <= 2 {
      assert forall i :: 0 <= i < n ==> Encode(c)[i] == m[p..p + n][i] == m[p + i];
    } else {
      var d3, d2, d1, d0 := DigitsOf(c);
      DigitsAreWellFormed(m, p, d3, d2, d1, d0);
    }
  }

  /** Whatever decodes without error is, byte for byte, the encoding of a scalar value. */
  lemma DecodeIsCanonical(m: seq<byte>, p: nat)
    requires Terminated(m, p) && DecodeAt(m, p).code != ERROR
    ensures var d := DecodeAt(m, p);
            p < d.next <= |m| && Scalar(d.code) && m[p..d.next] == Encode(d.code)
  {
    DecodeReads(m, p);
    WellFormedIsEncoded(m, p);
  }

  /** Decoding at the encoding of a scalar value gives it back and consumes exactly its bytes. */
  lemma DecodeOfEncode(m: seq<byte>, p: nat, c: int)
    requires Scalar(c) && p + |Encode(c)| <= |m| && m[p..p + |Encode(c)|] == Encode(c) && Terminated(m, p)
    ensures DecodeAt(m, p) == Decoded(c, p + |Encode(c)|)
  {
    EncodedIsWellFormed(m, p, c);
    DecodeReads(m, p);
  }

  // ----- what an error consumes -----

  /** Some bytes can be completed to one well-formed sequence. */
  ghost predicate Begins(s: seq<byte>) {
    exists t: seq<byte> :: Completes(s, t)
  }

  predicate Completes(s: seq<byte>, t: seq<byte>) {
    s != [] && WellFormed(s + t, 0) && |s + t| == Width(s[0])
  }

  /** How many bytes of a tail are within the bounds. */
  function GoodTail(m: seq<byte>, p: nat, needed: nat, lower: byte, upper: byte): (n: nat)
    ensures n <= needed && (p <= |m| ==> p + n <= |m|)
    decreases needed
  {
    if needed > 0 && p < |m| && lower <= m[p] <= upper then 1 + GoodTail(m, p + 1, needed - 1, 0x80, 0xBF) else 0
  }

  lemma {:induction false} TailStops(m: seq<byte>, p: nat, needed: nat, code: int, lower: byte, upper: byte)
    requires Terminated(m, p) && 0x80 <= lower && upper <= 0xBF && needed <= 3
    requires DecodeTail(m, p, needed, code, lower, upper).code == ERROR && code >= 0
    ensures var n := GoodTail(m, p, needed, lower, upper);
            n < needed && DecodeTail(m, p, needed, code, lower, upper).next == p + n
    decreases needed
  {
    if needed > 0 && lower <= m[p] <= upper {
      TailStops(m, p + 1, needed - 1, code + Low(m[p]) * Shift(needed - 1), 0x80, 0xBF);
    }
  }

  /** The bytes that belong together at `p`: the lead byte and the part of its tail that is right. */
  function Consumed(m: seq<byte>, p: nat): nat
    requires p < |m|
  {
    if Width(m[p]) <= 1 then 1
    else 1 + GoodTail(m, p + 1, Width(m[p]) - 1, Lower(m[p]), Upper(m[p]))
  }

  lemma ErrorConsumes(m: seq<byte>, p: nat)
    requires Terminated(m, p) && DecodeAt(m, p).code == ERROR
    ensures DecodeAt(m, p).next == p + Consumed(m, p)
    ensures Width(m[p]) == 0 || Consumed(m, p) < Width(m[p])
  {
    var b: int := m[p];
    if 0xC2 <= b <= 0xDF {
      TailStops(m, p + 1, 1, (b - 0xC0) * 0x40, Lower(b), Upper(b));
    } else if 0xE0 <= b <= 0xEF {
      TailStops(m, p + 1, 2, (b - 0xE0) * 0x1000, Lower(b), Upper(b));
    } else if 0xF0 <= b <= 0xF4 {
      TailStops(m, p + 1, 3, (b - 0xF0) * 0x40000, Lower(b), Upper(b));
    }
  }

  /** A lead byte with a right tail, cut off, can be completed; one byte more than that cannot be right. */
  lemma GoodBegins(s: seq<byte>, t: seq<byte>)
    requires s != [] && 0 < |s| < Width(s[0]) && |s + t| == Width(s[0])
    requires |s| >= 2 ==> Lower(s[0]) <= s[1] <= Upper(s[0])
    requires |s| >= 3 ==> 0x80 <= s[2] <= 0xBF
    requires |s| == 1 ==> t[0] == Lower(s[0])
    requires forall i :: 0 <= i < |t| && (|s| > 1 || i > 0) ==> t[i] == 0x80
    ensures Begins(s)
  {
    assert Completes(s, t);
  }

  lemma BadDoesNotBegin(s: seq<byte>, k: nat)
    requires s != [] && k < |s|
    requires || Width(s[0]) == 0
             || (k == 1 < Width(s[0]) && !(Lower(s[0]) <= s[1] <= Upper(s[0])))
             || (2 <= k < Width(s[0]) && !(0x80 <= s[k] <= 0xBF))
    ensures !Begins(s)
  {
    forall t: seq<byte> ensures !Completes(s, t) {
      assert k < |s + t| && (s + t)[0] == s[0] && (s + t)[k] == s[k];
    }
  }

  lemma GoodTailIs(m: seq<byte>, p: nat, w: nat, n: nat)
    requires p < |m| && w == Width(m[p]) >= 2 && n == Consumed(m, p) < w && p + n < |m|
    ensures n >= 2 ==> Lower(m[p]) <= m[p + 1] <= Upper(m[p])
    ensures n >= 3 ==> 0x80 <= m[p + 2] <= 0xBF
    ensures if n == 1 then !(Lower(m[p]) <= m[p + 1] <= Upper(m[p])) else !(0x80 <= m[p + n] <= 0xBF)
  {
    var a, b := GoodTail(m, p + 2, w - 2, 0x80, 0xBF), m[p];
    if n >= 2 && w >= 3 {
      assert a == n - 2;
    }
  }

  /** An error consumes as much as can be the beginning of a character, or else one byte: never a byte with which the
      next character might start. */
  lemma ErrorIsMaximal(m: seq<byte>, p: nat)
    requires Terminated(m, p) && DecodeAt(m, p).code == ERROR
    ensures var n := DecodeAt(m, p).next;
            && p < n < |m| && (n == p + 1 || Begins(m[p..n])) && !Begins(m[p..n + 1])
  {
    ErrorConsumes(m, p);
    var n, w := Consumed(m, p), Width(m[p]);
    var s := m[p..p + n];
    if w == 0 {
      BadDoesNotBegin(m[p..p + n + 1], 0);
    } else {
      GoodTailIs(m, p, w, n);
      var t := seq(w - n, i requires 0 <= i < w - n => if n == 1 && i == 0 then Lower(m[p]) else 0x80);
      GoodBegins(s, t);
      BadDoesNotBegin(m[p..p + n + 1], n);
    }
  }

  // ----- whole strings -----

  /** Scalar values that may stand in a NUL-terminated string. */
  ghost predicate Clean(cps: seq<int>) {
    forall c <- cps :: Scalar(c) && c != 0
  }

  function EncodeAll(cps: seq<int>): (s: seq<byte>) {
    if cps == [] then [] else Encode(cps[0]) + EncodeAll(cps[1..])
  }

  /** What repeated decoding yields up to the terminator, errors included (`str_to_utf32_unchecked`). */
  function CodePoints(m: seq<byte>, p: nat): (cps: seq<int>)
    requires Terminated(m, p)
    ensures |cps| <= StrLen(m, p)
    decreases |m| - p
  {
    var d := DecodeAt(m, p);
    if d.code == 0 then []
    else
      DecodeSkips(m, p);
      [d.code] + CodePoints(m, d.next)
  }

  /** A step that does not end the string passes over non-NUL bytes only. */
  lemma DecodeSkips(m: seq<byte>, p: nat)
    requires Terminated(m, p) && DecodeAt(m, p).code != 0
    ensures var n := DecodeAt(m, p).next;
            p < n <= |m| && StrLen(m, p) == n - p + StrLen(m, n)
  {
    var n := DecodeAt(m, p).next;
    assert forall k :: p <= k < n ==> m[k] != 0;
    StrLenShift(m, n, p);
  }

  /** The decoder as the loops over whole strings use it. */
  method DecodeNext(m: seq<byte>, p: nat) returns (code: int, next: nat)
    requires Terminated(m, p)
    ensures p < next
    ensures code == 0 ==> CodePoints(m, p) == []
    ensures code != 0 ==> next <= |m| && Terminated(m, next) && CodePoints(m, p) == [code] + CodePoints(m, next)
  {
    code, next := Decode(m, p);
    if code != 0 {
      DecodeSkips(m, p);
    }
  }

  /** `str_utf8_check`. */
  method Check(m: seq<byte>, p: nat) returns (ok: bool)
    requires Terminated(m, p)
    ensures ok <==> ERROR !in CodePoints(m, p)
  {
    var at := p;
    while true
      invariant Terminated(m, at)
      invariant ERROR in CodePoints(m, at) <==> ERROR in CodePoints(m, p)
      decreases |m| - at
    {
      var code, next := DecodeNext(m, at);
      if code == 0 {
        return true;
      }
      if code == ERROR {
        return false;
      }
      at := next;
    }
  }

  lemma PrefixSplits(m: seq<byte>, p: nat, a: seq<byte>, b: seq<byte>)
    requires p <= |m| && a + b <= m[p..]
    ensures p + |a| <= |m| && m[p..p + |a|] == a && b <= m[p + |a|..]
  {
    var q := p + |a|;
    assert m[p..][..|a|] == m[p..q] && m[p..][|a|..] == m[q..];
    assert (a + b)[..|a|] == a && (a + b)[|a|..] == b;
  }

  lemma EncodeAllSplits(m: seq<byte>, p: nat, q: nat, cps: seq<int>)
    requires cps != [] && q == p + |Encode(cps[0])| && p <= |m| && EncodeAll(cps) <= m[p..]
    ensures q <= |m| && m[p..q] == Encode(cps[0]) && EncodeAll(cps[1..]) <= m[q..]
    ensures q + |EncodeAll(cps[1..])| == p + |EncodeAll(cps)|
  {
    PrefixSplits(m, p, Encode(cps[0]), EncodeAll(cps[1..]));
  }

  /** The first of several encodings is decoded, and the others follow it. */
  lemma FirstDecodes(m: seq<byte>, p: nat, cps: seq<int>) returns (q: nat)
    requires cps != [] && Clean(cps) && p <= |m| && EncodeAll(cps) <= m[p..] && Terminated(m, p)
    ensures DecodeAt(m, p) == Decoded(cps[0], q) && cps[0] != 0 && Clean(cps[1..])
    ensures q <= |m| && EncodeAll(cps[1..]) <= m[q..] && q + |EncodeAll(cps[1..])| == p + |EncodeAll(cps)|
  {
    q := p + |Encode(cps[0])|;
    assert cps[0] in cps && forall c <- cps[1..] :: c in cps;
    EncodeAllSplits(m, p, q, cps);
    DecodeOfEncode(m, p, cps[0]);
  }

  lemma {:induction false} CodePointsOfEncoded(m: seq<byte>, p: nat, cps: seq<int>)
    requires Clean(cps) && p <= |m| && EncodeAll(cps) <= m[p..] && Terminated(m, p)
    requires p + |EncodeAll(cps)| < |m| && m[p + |EncodeAll(cps)|] == 0
    ensures CodePoints(m, p) == cps && StrLen(m, p) == |EncodeAll(cps)|
    decreases |cps|
  {
    if cps != [] {
      var q := FirstDecodes(m, p, cps);
      DecodeSkips(m, p);
      CodePointsOfEncoded(m, q, cps[1..]);
    }
  }

  lemma EncodeAllOfCons(c: int, cps: seq<int>, m: seq<byte>, p: nat, q: nat, r: nat)
    requires Scalar(c) && c != 0 && Clean(cps) && p <= q <= r <= |m|
    requires Encode(c) == m[p..q] && EncodeAll(cps) == m[q..r]
    ensures Clean([c] + cps) && EncodeAll([c] + cps) == m[p..r]
  {
    assert ([c] + cps)[0] == c && ([c] + cps)[1..] == cps;
    assert m[p..q] + m[q..r] == m[p..r];
  }

  /** One step of decoding, in terms of what it reads. */
  lemma CodePointsCons(m: seq<byte>, p: nat) returns (c: int, q: nat)
    requires Terminated(m, p) && m[p] != 0
    ensures p < q <= |m| && Terminated(m, q) && StrLen(m, p) == q - p + StrLen(m, q)
    ensures CodePoints(m, p) == [c] + CodePoints(m, q)
    ensures c != ERROR ==> Scalar(c) && c != 0 && Encode(c) == m[p..q]
  {
    DecodeReads(m, p);
    c, q := DecodeAt(m, p).code, DecodeAt(m, p).next;
    if c != ERROR {
      WellFormedIsEncoded(m, p);
    }
    DecodeSkips(m, p);
  }

  lemma {:induction false} EncodedCodePoints(m: seq<byte>, p: nat, cps: seq<int>, r: nat)
    requires Terminated(m, p) && cps == CodePoints(m, p) && ERROR !in cps && r == p + StrLen(m, p)
    ensures Clean(cps) && EncodeAll(cps) == m[p..r]
    decreases |m| - p
  {
    if m[p] != 0 {
      var c, q := CodePointsCons(m, p);
      var rest := CodePoints(m, q);
      assert cps[0] == c && cps[1..] == rest;
      EncodedCodePoints(m, q, rest, r);
      EncodeAllOfCons(c, rest, m, p, q, r);
    }
  }

  /** Valid UTF-8: a concatenation of encodings. */
  ghost predicate Valid(s: seq<byte>) {
    exists cps :: Clean(cps) && EncodeAll(cps) == s
  }

  /** What the checker accepts is exactly valid UTF-8, and decoding gives the only code points it encodes. */
  lemma CheckAcceptsExactlyUtf8(m: seq<byte>)
    requires Terminated(m, 0)
    ensures ERROR !in CodePoints(m, 0) <==> Valid(Text(m))
    ensures forall cps :: Clean(cps) && EncodeAll(cps) == Text(m) ==> cps == CodePoints(m, 0)
  {
    forall cps | Clean(cps) && EncodeAll(cps) == Text(m) ensures cps == CodePoints(m, 0) {
      assert m[0..] == m && m[|Text(m)|] == 0;
      CodePointsOfEncoded(m, 0, cps);
    }
    if ERROR !in CodePoints(m, 0) {
      EncodedCodePoints(m, 0, CodePoints(m, 0), StrLen(m, 0));
    }
  }

  /** Encoding then decoding succeeds and returns the `int` exactly when it is a scalar value. */
  lemma RoundTripExactlyForScalars(c: int, m: seq<byte>)
    requires m == Encode(c) + [0]
    ensures Terminated(m, 0)
    ensures DecodeAt(m, 0) == Decoded(c, |Encode(c)|) && c != ERROR <==> Scalar(c)
  {
    assert m[|Encode(c)|] == 0;
    if Scalar(c) {
      assert m[0..|Encode(c)|] == Encode(c);
      DecodeOfEncode(m, 0, c);
    } else if DecodeAt(m, 0).code != ERROR {
      DecodeIsCanonical(m, 0);
    }
  }
}

/** Base64 as sections 3.5 and 4 of RFC 4648 define it, and the encoder and decoder of the base library. */
module Base64 {
  import opened CStrings
  import opened Arith

  /** Table 1 of RFC 4648: `A`..`Z`, `a`..`z`, `0`..`9`, `+`, `/`. */
  function Digit(v: int): (c: byte)
    requires 0 <= v < 64
  {
    if v < 26 then 65 + v
    else if v < 52 then 97 + (v - 26)
    else if v < 62 then 48 + (v - 52)
    else if v == 62 then 43
    else 47
  }

  const PAD: byte := 61

  /** The position of `c` in the alphabet from `v` on, or -1. */
  function DigitValue(c: byte, v: nat := 0): (d: int)
    requires v <= 64
    ensures d == -1 || v <= d < 64
    decreases 64 - v
  {
    if v == 64 then -1 else if Digit(v) == c then v else DigitValue(c, v + 1)
  }

  lemma {:induction false} DigitAt(v: nat, d: int)
    requires v <= d < 64
    ensures DigitValue(Digit(d), v) == d && Digit(d) != PAD && Digit(d) != 0
    decreases d - v
  {
    if v < d {
      DigitAt(v + 1, d);
    }
  }

  lemma {:induction false} DigitOfValue(c: byte, v: nat)
    requires v <= 64
    ensures DigitValue(c, v) != -1 ==> Digit(DigitValue(c, v)) == c
    ensures DigitValue(c, v) == -1 ==> forall d :: v <= d < 64 ==> Digit(d) != c
    decreases 64 - v
  {
    if v < 64 && Digit(v) != c {
      DigitOfValue(c, v + 1);
    }
  }

  /** `base64_digit_value` inverts the alphabet by ranges. */
  method ReadDigit(c: byte) returns (d: int)
    ensures d == DigitValue(c)
  {
    if 65 <= c <= 90 {
      d := c - 65;
    } else if 97 <= c <= 122 {
      d := c - 97 + 26;
    } else if 48 <= c <= 57 {
      d := c - 48 + 52;
    } else if c == 43 {
      d := 62;
    } else if c == 47 {
      d := 63;
    } else {
      DigitOfValue(c, 0);
      return -1;
    }
    DigitAt(0, d);
  }

  // ----- the encoding, character by character -----

  function ByteAt(data: seq<byte>, i: nat): int {
    if i < |data| then data[i] else 0
  }

  /** The six-bit slice of a three-byte group that character `k` stands for, or -1 for padding. */
  function SextetAt(data: seq<byte>, k: nat): (v: int)
    ensures -1 <= v < 64
  {
    var i := k / 4 * 3;
    if k % 4 == 0 then ByteAt(data, i) / 4
    else if k % 4 == 1 then ByteAt(data, i) % 4 * 16 + ByteAt(data, i + 1) / 16
    else if k % 4 == 2 then
      if i + 1 < |data| then ByteAt(data, i + 1) % 16 * 4 + ByteAt(data, i + 2) / 64 else -1
    else
      if i + 2 < |data| then ByteAt(data, i + 2) % 64 else -1
  }

  function Char(v: int): byte
    requires -1 <= v < 64
  {
    if v == -1 then PAD else Digit(v)
  }

  function EncodedLen(n: nat): nat { (n + 2) / 3 * 4 }

  function Encoding(data: seq<byte>): (s: seq<byte>) {
    seq(EncodedLen(|data|), (k: nat) => Char(SextetAt(data, k)))
  }

  // ----- the encoder -----

  /** The encoder's registers: bytes read, bits of `value` not yet written, and the shift register itself. */
  datatype Bits = Bits(read: nat, bits: int, value: int)

  function Refill(data: seq<byte>, b: Bits): Bits {
    if b.bits < 6 && b.read < |data| then
      Bits(b.read + 1, b.bits + 8, (b.value * 0x100 + data[b.read]) % 0x1_0000_0000)
    else b
  }

  /** The next six bits, filled up with zeros. */
  function Padded(b: Bits): (v: int)
    requires 0 < b.bits <= 12 && 0 <= b.value
    ensures 0 <= v < 64
  {
    if b.bits >= 6 then b.value / Pow2(b.bits - 6) % 64
    else b.value * Pow2(6 - b.bits) % 0x1_0000_0000 % 64
  }

  /** Where the encoder stands after `o` characters. */
  ghost predicate AtChar(data: seq<byte>, o: nat, b: Bits) {
    var g, n := o / 4 * 3, |data|;
    && o <= EncodedLen(n) && b.read <= n && 0 <= b.value
    && match o % 4 {
         case 0 => if g < n then b.read == g && b.bits == 0 else b.read == n && b.bits <= 0
         case 1 => b.read == g + 1 && b.bits == 2 && b.value % 4 == data[g] % 4
         case 2 => if g + 1 < n then b.read == g + 2 && b.bits == 4 && b.value % 16 == data[g + 1] % 16
                   else b.read == n && b.bits <= 0
         case _ => if g + 2 < n then b.read == g + 3 && b.bits == 6 && b.value % 64 == data[g + 2] % 64
                   else b.read == n && b.bits <= 0
       }
  }

  /** The same once the register is refilled. */
  ghost predicate AtFill(data: seq<byte>, o: nat, b: Bits) {
    var g, n := o / 4 * 3, |data|;
    && o <= EncodedLen(n) && b.read <= n && 0 <= b.value
    && match o % 4 {
         case 0 => if g < n then b.read == g + 1 && b.bits == 8 && b.value % 256 == data[g]
                   else b.read == n && b.bits <= 0
         case 1 => if g + 1 < n then b.read == g + 2 && b.bits == 10
                   && b.value % 1024 == ByteAt(data, g) % 4 * 256 + ByteAt(data, g + 1)
                   else g < n && b.read == n && b.bits == 2 && b.value % 4 == data[g] % 4
         case 2 => if g + 2 < n then b.read == g + 3 && b.bits == 12
                   && b.value % 4096 == ByteAt(data, g + 1) % 16 * 256 + ByteAt(data, g + 2)
                   else if g + 1 < n then b.read == n && b.bits == 4 && b.value % 16 == data[g + 1] % 16
                   else b.read == n && b.bits <= 0
         case _ => if g + 2 < n then b.read == g + 3 && b.bits == 6 && b.value % 64 == data[g + 2] % 64
                   else b.read == n && b.bits <= 0
       }
  }

  lemma ShiftIn(v: int, c: byte)
    requires 0 <= v
    ensures var w := (v * 0x100 + c) % 0x1_0000_0000;
            w % 256 == c && w % 1024 == v % 4 * 256 + c && w % 4096 == v % 16 * 256 + c
  {
    var q, r := v / 0x100_0000, v % 0x100_0000;
    DivModIs(v * 0x100 + c, 0x1_0000_0000, q, r * 0x100 + c);
    DivModIs(r * 0x100 + c, 256, r, c);
    DivModIs(r * 0x100 + c, 1024, r / 4, r % 4 * 256 + c);
    DivModIs(r * 0x100 + c, 4096, r / 16, r % 16 * 256 + c);
    DivModIs(v, 4, q * 0x40_0000 + r / 4, r % 4);
    DivModIs(v, 16, q * 0x10_0000 + r / 16, r % 16);
  }

  /** Six bits behind `k` others depend on the low `k + 6` bits only; `p` is two to the power `k`. */
  lemma Slice(v: int, p: int)
    requires 0 <= v && p > 0
    ensures v / p % 64 == v % (p * 64) / p && v % p == v % (p * 64) % p
  {
    var q, r := v / (p * 64), v % (p * 64);
    DivModIs(r, p, r / p, r % p);
    assert v == p * (q * 64 + r / p) + r % p;
    DivModIs(v, p, q * 64 + r / p, r % p);
    if 64 <= r / p {
      MulMonotone(p, 63, r / p);
    }
    DivModIs(v / p, 64, q, r / p);
  }

  lemma SliceShort(v: int)
    requires 0 <= v
    ensures v * 16 % 0x1_0000_0000 % 64 == v % 4 * 16 && v * 4 % 0x1_0000_0000 % 64 == v % 16 * 4
  {
    var r := v % 0x1000_0000;
    DivModIs(v * 16, 0x1_0000_0000, v / 0x1000_0000, r * 16);
    DivModIs(r * 16, 64, r / 4, r % 4 * 16);
    DivModIs(v, 4, v / 0x1000_0000 * 0x400_0000 + r / 4, r % 4);
    var t := v % 0x4000_0000;
    DivModIs(v * 4, 0x1_0000_0000, v / 0x4000_0000, t * 4);
    DivModIs(t * 4, 64, t / 16, t % 16 * 4);
    DivModIs(v, 16, v / 0x4000_0000 * 0x400_0000 + t / 16, t % 16);
  }

  lemma RefillFills(data: seq<byte>, o: nat, b: Bits)
    requires AtChar(data, o, b)
    ensures AtFill(data, o, Refill(data, b))
  {
    if b.read < |data| {
      ShiftIn(b.value, data[b.read]);
    }
  }

  lemma EmitsChar(data: seq<byte>, o: nat, b: Bits)
    requires AtFill(data, o, b) && b.bits > 0
    ensures o < EncodedLen(|data|) && b.bits <= 12 && Padded(b) == SextetAt(data, o)
    ensures AtChar(data, o + 1, b.(bits := b.bits - 6))
  {
    SmallPowers();
    if b.bits >= 6 {
      Slice(b.value, Pow2(b.bits - 6));
    } else {
      SliceShort(b.value);
    }
  }

  lemma EmitsPad(data: seq<byte>, o: nat, b: Bits)
    requires AtFill(data, o, b) && b.bits <= 0
    ensures o % 4 == 0 ==> o == EncodedLen(|data|)
    ensures o % 4 != 0 ==> o < EncodedLen(|data|) && SextetAt(data, o) == -1 && AtChar(data, o + 1, b)
  {
  }

  /** What follows the first `o` characters: the next one, or the terminator. */
  method EncodeNext(dst: array<byte>, o: nat, data: seq<byte>, b: Bits) returns (next: Bits, more: bool)
    requires o < dst.Length && AtFill(data, o, b)
    modifies dst
    ensures forall k :: 0 <= k < dst.Length && k != o ==> dst[k] == old(dst[k])
    ensures if more then o < EncodedLen(|data|) && dst[o] == Encoding(data)[o] && AtChar(data, o + 1, next)
            else o == EncodedLen(|data|) && dst[o] == 0
  {
    next, more := b, true;
    if b.bits > 0 {
      EmitsChar(data, o, b);
      dst[o] := Digit(Padded(b));
      next := b.(bits := b.bits - 6);
    } else {
      EmitsPad(data, o, b);
      if o % 4 != 0 {
        dst[o] := PAD;
      } else {
        dst[o] := 0;
        more := false;
      }
    }
  }

  /** The loop: the characters go to the front of `dst`, at most `size` of them, with a terminator if there is room
      for it; nothing behind it is written. */
  method EncodeChars(dst: array<byte>, size: nat, data: seq<byte>) returns (o: nat)
    requires size < dst.Length && dst[size] == 0
    modifies dst
    ensures o <= size && o <= EncodedLen(|data|) && (o < size ==> o == EncodedLen(|data|))
    ensures dst[o] == 0 && dst[..o] == Encoding(data)[..o]
    ensures forall k :: o < k < dst.Length ==> dst[k] == old(dst[k])
  {
    ghost var text := Encoding(data);
    var b;
    b, o := Bits(0, 0, 0), 0;
    while true
      invariant o <= size && o <= |text| && AtChar(data, o, b)
      invariant dst[..o] == text[..o]
      invariant forall k :: o <= k < dst.Length ==> dst[k] == old(dst[k])
      decreases size - o
    {
      RefillFills(data, o, b);
      b := Refill(data, b);
      if o == size {
        return;
      }
      var more;
      b, more := EncodeNext(dst, o, data, b);
      if !more {
        return;
      }
      o := o + 1;
    }
  }

  method Encode(dst: array<byte>, dstSize: nat, data: seq<byte>)
    requires 1 <= dstSize <= dst.Length
    modifies dst
    ensures Terminated(dst[..], 0) && Text(dst[..]) == Front(Encoding(data), dstSize - 1)
    ensures dst[dstSize - 1] == 0
    ensures forall k :: |Text(dst[..])| < k < dstSize - 1 || dstSize <= k < dst.Length ==> dst[k] == old(dst[k])
  {
    dst[dstSize - 1] := 0;
    var o := EncodeChars(dst, dstSize - 1, data);
    assert dst[..o] == Front(Encoding(data), dstSize - 1);
    TextIs(dst[..], dst[..o]);
  }

  // ----- the decoder -----

  datatype Decoding = Ok(bytes: seq<byte>) | Err(code: int)

  const INVALID_DIGIT := -1
  const PADDING_OR_SPACE := -2
  const BAD_LENGTH := -3

  /** How many bytes the group at `i` stands for; only the last group may be padded. */
  function OutputBytes(s: seq<byte>, i: nat): (n: nat)
    requires i + 4 <= |s|
    ensures 1 <= n <= 3
  {
    if i == |s| - 4 && s[i + 3] == PAD then (if s[i + 2] == PAD then 1 else 2) else 3
  }

  /** The 24 bits of the group at `i`, padding read as zeros, or -1. */
  function GroupValue(s: seq<byte>, i: nat): (v: int)
    requires i + 4 <= |s|
    ensures -1 <= v < 0x100_0000
  {
    var n := OutputBytes(s, i);
    var d0, d1 := DigitValue(s[i]), DigitValue(s[i + 1]);
    var d2 := if n >= 2 then DigitValue(s[i + 2]) else 0;
    var d3 := if n >= 3 then DigitValue(s[i + 3]) else 0;
    if d0 == -1 || d1 == -1 || d2 == -1 || d3 == -1 then -1
    else d0 * 0x4_0000 + d1 * 0x1000 + d2 * 0x40 + d3
  }

  function ValueByte(v: int, b: nat): byte
    requires 0 <= v < 0x100_0000 && b < 3
  {
    if b == 0 then v / 0x1_0000 % 0x100 else if b == 1 then v / 0x100 % 0x100 else v % 0x100
  }

  /** The first `n` bytes of a value whose other bytes are zero. */
  function ValueBytes(v: int, n: nat): (d: Decoding)
    requires -1 <= v < 0x100_0000 && 1 <= n <= 3
    ensures d.Ok? ==> |d.bytes| == n
  {
    if v == -1 then Err(INVALID_DIGIT)
    else if (n < 3 && ValueByte(v, 2) != 0) || (n < 2 && ValueByte(v, 1) != 0) then Err(PADDING_OR_SPACE)
    else Ok([ValueByte(v, 0), ValueByte(v, 1), ValueByte(v, 2)][..n])
  }

  function GroupBytes(s: seq<byte>, i: nat): (d: Decoding)
    requires i + 4 <= |s|
    ensures d.Ok? ==> |d.bytes| == OutputBytes(s, i)
  {
    ValueBytes(GroupValue(s, i), OutputBytes(s, i))
  }

  /** The groups of a string, each decoded on its own. */
  function Groups(s: seq<byte>): (gs: seq<Decoding>) {
    seq(|s| / 4, (g: nat) => if 4 * g + 4 <= |s| then GroupBytes(s, 4 * g) else Err(BAD_LENGTH))
  }

  /** Results from `g` on put together, or the first error. */
  function Concat(gs: seq<Decoding>, g: nat): Decoding
    requires g <= |gs|
    decreases |gs| - g
  {
    if g == |gs| then Ok([])
    else if gs[g].Err? then gs[g]
    else Prepend(gs[g].bytes, Concat(gs, g + 1))
  }

  function Prepend(x: seq<byte>, d: Decoding): Decoding {
    if d.Ok? then Ok(x + d.bytes) else d
  }

  function Decoded(s: seq<byte>, space: nat): Decoding {
    if |s| % 4 != 0 then Err(BAD_LENGTH)
    else if |s| / 4 * 3 > space then Err(PADDING_OR_SPACE)
    else Concat(Groups(s), 0)
  }

  lemma PrependPrepend(x: seq<byte>, y: seq<byte>, d: Decoding)
    ensures Prepend(x, Prepend(y, d)) == Prepend(x + y, d)
  {
    if d.Ok? {
      assert x + (y + d.bytes) == x + y + d.bytes;
    }
  }

  /** Reads the four characters at `i`, the last ones of a padded group as zeros. */
  method ReadGroup(data: seq<byte>, len: nat, i: nat) returns (value: int, n: nat)
    requires i + 4 <= len <= |data|
    ensures value == GroupValue(data[..len], i) && n == OutputBytes(data[..len], i)
  {
    n := 3;
    var c2: byte, c3: byte := data[i + 2], data[i + 3];
    if i == len - 4 {
      if c3 == PAD {
        c3 := 65;
        n := 2;
        if c2 == PAD {
          c2 := 65;
          n := 1;
        }
      }
    }
    var d0 := ReadDigit(data[i]);
    var d1 := ReadDigit(data[i + 1]);
    var d2 := ReadDigit(c2);
    var d3 := ReadDigit(c3);
    if d0 == -1 || d1 == -1 || d2 == -1 || d3 == -1 {
      return -1, n;
    }
    value := d0 * 0x4_0000 + d1 * 0x1000 + d2 * 0x40 + d3;
  }

  /** Writes the first `n` bytes of `value` at `o`; the other ones have to be zero. */
  method WriteGroup(dst: array<byte>, o: nat, value: int, n: nat) returns (ok: bool)
    requires 0 <= value < 0x100_0000 && 1 <= n <= 3 && o + n <= dst.Length
    modifies dst
    ensures ok <==> ValueBytes(value, n).Ok?
    ensures !ok ==> ValueBytes(value, n) == Err(PADDING_OR_SPACE)
    ensures ok ==> dst[..] == old(dst[..o]) + ValueBytes(value, n).bytes + old(dst[o..])[n..]
  {
    var b := 0;
    while b < 3
      invariant b <= 3
      invariant forall k :: 0 <= k < dst.Length ==>
                  dst[k] == if o <= k < o + n && k < o + b then ValueByte(value, k - o) else old(dst[k])
      invariant forall k :: n <= k < b ==> ValueByte(value, k) == 0
    {
      var v := ValueByte(value, b);
      if b < n {
        dst[o + b] := v;
      } else if v != 0 {
        return false;
      }
      b := b + 1;
    }
    return true;
  }

  /** One group of four characters, from reading it to writing its bytes at `o`. */
  method DecodeGroup(dst: array<byte>, data: seq<byte>, len: nat, i: nat, o: nat, ghost group: Decoding)
    returns (code: int, n: nat)
    requires i + 4 <= len <= |data| && o + 3 <= dst.Length && group == GroupBytes(data[..len], i)
    modifies dst
    ensures group.Err? ==> code == group.code < 0
    ensures group.Ok? ==> code == 0 && n == |group.bytes| <= 3
    ensures group.Ok? ==> dst[..] == old(dst[..o]) + group.bytes + old(dst[o + n..])
  {
    var value;
    value, n := ReadGroup(data, len, i);
    if value == -1 {
      return INVALID_DIGIT, n;
    }
    var ok := WriteGroup(dst, o, value, n);
    if !ok {
      return PADDING_OR_SPACE, n;
    }
    code := 0;
  }

  lemma PrependNothing(d: Decoding)
    ensures Prepend([], d) == d
  {
  }

  lemma WrittenBehind(was: seq<byte>, out: seq<byte>, group: seq<byte>, before: seq<byte>, now: seq<byte>)
    requires |out| + |group| <= |was| && before == out + was[|out|..]
    requires now == before[..|out|] + group + before[|out| + |group|..]
    ensures now == out + group + was[|out| + |group|..]
  {
  }

  /** `out` has been decoded from the first `g` groups and stands at the front of memory that held `was`. */
  ghost predicate Decodes(gs: seq<Decoding>, g: nat, was: seq<byte>, out: seq<byte>, now: seq<byte>)
    requires g <= |gs|
  {
    |out| <= 3 * g <= |was| && now == out + was[|out|..] && Prepend(out, Concat(gs, g)) == Concat(gs, 0)
  }

  /** The outcome of a decoding, in the result and in memory that held `was`; an error leaves the memory open. */
  ghost predicate Writes(was: seq<byte>, d: Decoding, now: seq<byte>, r: int) {
    match d
    case Err(code) => r == code
    case Ok(bytes) => r == |bytes| <= |was| && now == bytes + was[r..]
  }

  lemma DecodesNothing(gs: seq<Decoding>, was: seq<byte>)
    ensures Decodes(gs, 0, was, [], was)
  {
    PrependNothing(Concat(gs, 0));
  }

  lemma DecodesAll(gs: seq<Decoding>, was: seq<byte>, out: seq<byte>, now: seq<byte>)
    requires Decodes(gs, |gs|, was, out, now)
    ensures Writes(was, Concat(gs, 0), now, |out|)
  {
  }

  lemma DecodesNext(gs: seq<Decoding>, g: nat, was: seq<byte>, out: seq<byte>, before: seq<byte>, now: seq<byte>)
    requires g < |gs| && 3 * |gs| <= |was| && Decodes(gs, g, was, out, before)
    requires gs[g].Ok? && |gs[g].bytes| <= 3
    requires now == before[..|out|] + gs[g].bytes + before[|out| + |gs[g].bytes|..]
    ensures Decodes(gs, g + 1, was, out + gs[g].bytes, now)
  {
    WrittenBehind(was, out, gs[g].bytes, before, now);
    PrependPrepend(out, gs[g].bytes, Concat(gs, g + 1));
  }

  /** One round of the loop. */
  method DecodeNext(dst: array<byte>, data: seq<byte>, len: nat, i: nat, o: nat,
                    ghost gs: seq<Decoding>, ghost g: nat, ghost was: seq<byte>, ghost out: seq<byte>)
    returns (code: int, next: nat, ghost more: seq<byte>)
    requires i == 4 * g && i + 4 <= len <= |data| && g < |gs| && gs == Groups(data[..len])
    requires |was| == dst.Length >= 3 * |gs| && o == |out| && Decodes(gs, g, was, out, dst[..])
    modifies dst
    ensures code < 0 ==> Concat(gs, 0) == Err(code)
    ensures code >= 0 ==> next == |more| && Decodes(gs, g + 1, was, more, dst[..])
  {
    ghost var before := dst[..];
    var n;
    code, n := DecodeGroup(dst, data, len, i, o, gs[g]);
    next, more := o, out;
    if code >= 0 {
      DecodesNext(gs, g, was, out, before, dst[..]);
      next, more := o + n, out + gs[g].bytes;
    }
  }

  /** All groups in turn, up to the first that is wrong. */
  method DecodeGroups(dst: array<byte>, data: seq<byte>, len: nat, ghost gs: seq<Decoding>) returns (r: int)
    requires len <= |data| && len == 4 * |gs| && 3 * |gs| <= dst.Length && gs == Groups(data[..len])
    modifies dst
    ensures Writes(old(dst[..]), Concat(gs, 0), dst[..], r)
  {
    ghost var was := dst[..];
    var i, o := 0, 0;
    ghost var g, out := 0, [];
    DecodesNothing(gs, was);
    while i < len
      invariant 0 <= g && i == 4 * g <= len && o == |out|
      invariant Decodes(gs, g, was, out, dst[..])
    {
      var code;
      code, o, out := DecodeNext(dst, data, len, i, o, gs, g, was, out);
      if code < 0 {
        return code;
      }
      i := i + 4;
      g := g + 1;
    }
    DecodesAll(gs, was, out, dst[..]);
    return o;
  }

  method Decode(dst: array<byte>, dstSize: nat, data: seq<byte>) returns (r: int)
    requires Terminated(data, 0) && dstSize <= dst.Length
    modifies dst
    ensures Writes(old(dst[..]), Decoded(Text(data), dstSize), dst[..], r) && r <= dstSize
  {
    var len := StrLen(data, 0);
    if len % 4 != 0 {
      return BAD_LENGTH;
    }
    if len / 4 * 3 > dstSize {
      return PADDING_OR_SPACE;
    }
    r := DecodeGroups(dst, data, len, Groups(Text(data)));
    ConcatFits(Groups(Text(data)), 0);
  }

  lemma {:induction false} ConcatFits(gs: seq<Decoding>, g: nat)
    requires g <= |gs| && forall k :: 0 <= k < |gs| ==> if gs[k].Ok? then |gs[k].bytes| <= 3 else gs[k].code < 0
    ensures var d := Concat(gs, g); if d.Ok? then |d.bytes| <= 3 * (|gs| - g) else d.code < 0
    decreases |gs| - g
  {
    if g < |gs| {
      ConcatFits(gs, g + 1);
    }
  }

  // ----- encoder against decoder -----

  /** Twenty-four bits cut into three bytes and into four sextets. */
  lemma SameBits(d0: int, d1: int, d2: int, d3: int, b0: int, b1: int, b2: int)
    requires 0 <= d1 < 64 && 0 <= d2 < 64 && 0 <= d3 < 64 && 0 <= b1 < 0x100 && 0 <= b2 < 0x100
    ensures d0 * 0x4_0000 + d1 * 0x1000 + d2 * 0x40 + d3 == b0 * 0x1_0000 + b1 * 0x100 + b2
       <==> b0 == d0 * 4 + d1 / 16 && b1 == d1 % 16 * 16 + d2 / 4 && b2 == d2 % 4 * 64 + d3
  {
    var c0, c1, c2 := d0 * 4 + d1 / 16, d1 % 16 * 16 + d2 / 4, d2 % 4 * 64 + d3;
    assert d0 * 0x4_0000 + d1 * 0x1000 + d2 * 0x40 + d3 == c0 * 0x1_0000 + c1 * 0x100 + c2;
  }

  lemma ValueBytesIs(v: int, n: nat, b0: byte, b1: byte, b2: byte)
    requires v == b0 * 0x1_0000 + b1 * 0x100 + b2 && 1 <= n <= 3
    ensures if (n < 3 && b2 != 0) || (n < 2 && b1 != 0) then ValueBytes(v, n).Err?
            else ValueBytes(v, n) == Ok([b0, b1, b2][..n])
  {
    DivModIs(v, 0x1_0000, b0, b1 * 0x100 + b2);
    DivModIs(v, 0x100, b0 * 0x100 + b1, b2);
    DivModIs(b0 * 0x100 + b1, 0x100, b0, b1);
    assert ValueByte(v, 0) == b0 && ValueByte(v, 1) == b1 && ValueByte(v, 2) == b2;
  }

  lemma CharRoundTrip(v: int)
    requires -1 <= v < 64
    ensures DigitValue(Char(v)) == v && (Char(v) == PAD <==> v == -1)
  {
    if v == -1 {
      NotADigit(0);
    } else {
      DigitAt(0, v);
    }
  }

  lemma {:induction false} NotADigit(v: nat)
    requires v <= 64
    ensures DigitValue(PAD, v) == -1
    decreases 64 - v
  {
    if v < 64 {
      NotADigit(v + 1);
    }
  }

  /** The bytes of group `g`, with zeros behind the end, and how many there are. */
  predicate IsGroup(data: seq<byte>, g: nat, b0: byte, b1: byte, b2: byte, n: nat) {
    && 3 * g < |data| && b0 == data[3 * g] && b1 == ByteAt(data, 3 * g + 1) && b2 == ByteAt(data, 3 * g + 2)
    && n == if 3 * g + 2 < |data| then 3 else if 3 * g + 1 < |data| then 2 else 1
  }

  /** Six bits number `c` of the first `n` of three bytes, or -1 for padding. */
  function SixBits(b0: byte, b1: byte, b2: byte, n: nat, c: nat): (v: int)
    ensures -1 <= v < 64
  {
    if c == 0 then b0 / 4
    else if c == 1 then b0 % 4 * 16 + b1 / 16
    else if c == 2 then if n >= 2 then b1 % 16 * 4 + b2 / 64 else -1
    else if n >= 3 then b2 % 64 else -1
  }

  lemma SextetIsSixBits(data: seq<byte>, g: nat, b0: byte, b1: byte, b2: byte, n: nat, c: nat)
    requires IsGroup(data, g, b0, b1, b2, n) && c < 4
    ensures SextetAt(data, 4 * g + c) == SixBits(b0, b1, b2, n, c)
  {
    assert (4 * g + c) / 4 == g && (4 * g + c) % 4 == c;
  }

  /** A character stands for six bits, or is padding. */
  predicate Means(c: byte, v: int) {
    DigitValue(c) == v && (c == PAD <==> v == -1)
  }

  lemma CharIsSixBits(data: seq<byte>, s: seq<byte>, g: nat, b0: byte, b1: byte, b2: byte, n: nat, c: nat)
    requires IsGroup(data, g, b0, b1, b2, n) && c < 4 && s == Encoding(data) && 4 * g + c < |s|
    ensures Means(s[4 * g + c], SixBits(b0, b1, b2, n, c))
  {
    SextetIsSixBits(data, g, b0, b1, b2, n, c);
    CharAt(data, s, 4 * g + c);
  }

  lemma GroupFits(n: nat, g: nat)
    requires 3 * g < n
    ensures 4 * g + 4 <= EncodedLen(n) && (4 * g + 4 == EncodedLen(n) <==> n <= 3 * g + 3)
  {
  }

  lemma CharAt(data: seq<byte>, s: seq<byte>, k: nat)
    requires s == Encoding(data) && k < |s|
    ensures DigitValue(s[k]) == SextetAt(data, k) && (s[k] == PAD <==> SextetAt(data, k) == -1)
  {
    CharRoundTrip(SextetAt(data, k));
  }

  /** Four characters that stand for the first `n` of three bytes. */
  predicate StandsFor(s: seq<byte>, k: nat, b0: byte, b1: byte, b2: byte, n: nat)
    requires k + 4 <= |s|
  {
    forall c: nat :: c < 4 ==> Means(s[k + c], SixBits(b0, b1, b2, n, c))
  }

  lemma EncodingStandsFor(data: seq<byte>, s: seq<byte>, g: nat, b0: byte, b1: byte, b2: byte, n: nat)
    requires IsGroup(data, g, b0, b1, b2, n) && s == Encoding(data) && 4 * g + 4 <= |s|
    ensures StandsFor(s, 4 * g, b0, b1, b2, n)
  {
    forall c: nat | c < 4 ensures Means(s[4 * g + c], SixBits(b0, b1, b2, n, c)) {
      CharIsSixBits(data, s, g, b0, b1, b2, n, c);
    }
  }

  /** Six bits as the decoder reads them, padding as zeros. */
  function ReadBits(b0: byte, b1: byte, b2: byte, n: nat, c: nat): (v: int)
    ensures 0 <= v < 64
  {
    if SixBits(b0, b1, b2, n, c) == -1 then 0 else SixBits(b0, b1, b2, n, c)
  }

  lemma BitsOfBytes(b0: byte, b1: byte, b2: byte, n: nat, d0: int, d1: int, d2: int, d3: int)
    requires 1 <= n <= 3 && (n < 3 ==> b2 == 0) && (n < 2 ==> b1 == 0)
    requires d0 == ReadBits(b0, b1, b2, n, 0) && d1 == ReadBits(b0, b1, b2, n, 1)
    requires d2 == ReadBits(b0, b1, b2, n, 2) && d3 == ReadBits(b0, b1, b2, n, 3)
    ensures d0 * 0x4_0000 + d1 * 0x1000 + d2 * 0x40 + d3 == b0 * 0x1_0000 + b1 * 0x100 + b2
  {
    SameBits(d0, d1, d2, d3, b0, b1, b2);
  }

  lemma DigitsStandFor(s: seq<byte>, k: nat, b0: byte, b1: byte, b2: byte, n: nat, c: nat, v: int)
    requires k + 4 <= |s| && StandsFor(s, k, b0, b1, b2, n) && c < 4 && v == SixBits(b0, b1, b2, n, c)
    ensures Means(s[k + c], v)
  {
  }

  lemma GroupValueOfBits(s: seq<byte>, k: nat, n: nat, v0: int, v1: int, v2: int, v3: int)
    requires k + 4 <= |s| && 1 <= n <= 3 && (n < 3 ==> k + 4 == |s|)
    requires Means(s[k], v0) && Means(s[k + 1], v1) && Means(s[k + 2], v2) && Means(s[k + 3], v3)
    requires v0 >= 0 && v1 >= 0 && (v2 == -1 <==> n < 2) && (v3 == -1 <==> n < 3)
    ensures OutputBytes(s, k) == n
    ensures GroupValue(s, k)
         == v0 * 0x4_0000 + v1 * 0x1000 + (if v2 == -1 then 0 else v2) * 0x40 + if v3 == -1 then 0 else v3
  {
  }

  lemma ValueOfGroup(s: seq<byte>, k: nat, b0: byte, b1: byte, b2: byte, n: nat)
    requires k + 4 <= |s| && 1 <= n <= 3 && (n < 3 ==> k + 4 == |s|)
    requires StandsFor(s, k, b0, b1, b2, n) && (n < 3 ==> b2 == 0) && (n < 2 ==> b1 == 0)
    ensures OutputBytes(s, k) == n && GroupValue(s, k) == b0 * 0x1_0000 + b1 * 0x100 + b2
  {
    var v0, v1 := SixBits(b0, b1, b2, n, 0), SixBits(b0, b1, b2, n, 1);
    var v2, v3 := SixBits(b0, b1, b2, n, 2), SixBits(b0, b1, b2, n, 3);
    DigitsStandFor(s, k, b0, b1, b2, n, 0, v0);
    DigitsStandFor(s, k, b0, b1, b2, n, 1, v1);
    DigitsStandFor(s, k, b0, b1, b2, n, 2, v2);
    DigitsStandFor(s, k, b0, b1, b2, n, 3, v3);
    GroupValueOfBits(s, k, n, v0, v1, v2, v3);
    BitsOfBytes(b0, b1, b2, n, v0, v1, if v2 == -1 then 0 else v2, if v3 == -1 then 0 else v3);
  }

  /** Four characters that stand for `n` bytes read back as these bytes. */
  lemma GroupOfDigits(s: seq<byte>, k: nat, b0: byte, b1: byte, b2: byte, n: nat)
    requires k + 4 <= |s| && 1 <= n <= 3 && (n < 3 ==> k + 4 == |s|)
    requires StandsFor(s, k, b0, b1, b2, n) && (n < 3 ==> b2 == 0) && (n < 2 ==> b1 == 0)
    ensures GroupBytes(s, k) == Ok([b0, b1, b2][..n])
  {
    ValueOfGroup(s, k, b0, b1, b2, n);
    ValueBytesIs(GroupValue(s, k), n, b0, b1, b2);
  }

  lemma GroupIsFront(data: seq<byte>, g: nat, b0: byte, b1: byte, b2: byte, n: nat)
    requires IsGroup(data, g, b0, b1, b2, n)
    ensures Front(data[3 * g..], 3) == [b0, b1, b2][..n] && (n < 3 ==> b2 == 0) && (n < 2 ==> b1 == 0)
  {
  }

  lemma GroupOfChars(data: seq<byte>, s: seq<byte>, g: nat)
    requires 3 * g < |data| && s == Encoding(data)
    ensures 4 * g + 4 <= |s| && GroupBytes(s, 4 * g) == Ok(Front(data[3 * g..], 3))
  {
    var b0, b1, b2 := data[3 * g], ByteAt(data, 3 * g + 1), ByteAt(data, 3 * g + 2);
    var n := if 3 * g + 2 < |data| then 3 else if 3 * g + 1 < |data| then 2 else 1;
    GroupFits(|data|, g);
    EncodingStandsFor(data, s, g, b0, b1, b2, n);
    GroupIsFront(data, g, b0, b1, b2, n);
    GroupOfDigits(s, 4 * g, b0, b1, b2, n);
  }

  /** The `k`-th group of three bytes, or what there is of it. */
  function ChunkAt(data: seq<byte>, k: nat): seq<byte>
    requires 3 * k <= |data|
  {
    Front(data[3 * k..], 3)
  }

  /** What is left of some bytes from their `k`-th group on. */
  function RestAt(data: seq<byte>, k: nat): seq<byte> {
    if 3 * k <= |data| then data[3 * k..] else []
  }

  lemma ChunkAndRest(data: seq<byte>, k: nat)
    requires 3 * k <= |data|
    ensures RestAt(data, k) == ChunkAt(data, k) + RestAt(data, k + 1)
  {
  }

  lemma ConcatOne(gs: seq<Decoding>, g: nat, x: seq<byte>, rest: seq<byte>)
    requires g < |gs| && gs[g] == Ok(x) && Concat(gs, g + 1) == Ok(rest)
    ensures Concat(gs, g) == Ok(x + rest)
  {
  }

  lemma {:induction false} ConcatOfChunks(gs: seq<Decoding>, data: seq<byte>, g: nat)
    requires |gs| == (|data| + 2) / 3 && g <= |gs|
    requires forall k :: 0 <= k < |gs| ==> gs[k] == Ok(ChunkAt(data, k))
    ensures Concat(gs, g) == Ok(RestAt(data, g))
    decreases |gs| - g
  {
    if g < |gs| {
      ConcatOfChunks(gs, data, g + 1);
      ChunkAndRest(data, g);
      ConcatOne(gs, g, ChunkAt(data, g), RestAt(data, g + 1));
    }
  }

  /** The digits that a group's bytes are made of, with the bits behind the last byte zero. */
  lemma SextetsOfDigits(x: seq<byte>, d0: int, d1: int, d2: int, d3: int)
    requires 0 <= d0 < 64 && 0 <= d1 < 64 && 0 <= d2 < 64 && 0 <= d3 < 64 && 1 <= |x| <= 3
    requires d0 * 0x4_0000 + d1 * 0x1000 + d2 * 0x40 + d3
          == x[0] * 0x1_0000 + ByteAt(x, 1) * 0x100 + ByteAt(x, 2)
    ensures SextetAt(x, 0) == d0 && SextetAt(x, 1) == d1
    ensures SextetAt(x, 2) == if |x| >= 2 then d2 else -1
    ensures SextetAt(x, 3) == if |x| >= 3 then d3 else -1
  {
    SameBits(d0, d1, d2, d3, x[0], ByteAt(x, 1), ByteAt(x, 2));
  }

  lemma ValueOfBytes(v: int, n: nat, x: seq<byte>)
    requires -1 <= v < 0x100_0000 && 1 <= n <= 3 && ValueBytes(v, n) == Ok(x)
    ensures v == x[0] * 0x1_0000 + ByteAt(x, 1) * 0x100 + ByteAt(x, 2)
  {
    assert v == ValueByte(v, 0) * 0x1_0000 + ValueByte(v, 1) * 0x100 + ValueByte(v, 2);
    assert n < 3 ==> ValueByte(v, 2) == 0;
    assert n < 2 ==> ValueByte(v, 1) == 0;
  }

  /** The byte at `i + k` stands for the `k`-th six bits of `x`. */
  predicate SpellsSextet(s: seq<byte>, i: nat, x: seq<byte>, k: nat)
    requires i + k < |s|
  {
    if SextetAt(x, k) == -1 then s[i + k] == PAD else DigitValue(s[i + k]) == SextetAt(x, k)
  }

  predicate SpellsGroup(s: seq<byte>, i: nat, x: seq<byte>)
    requires i + 4 <= |s|
  {
    SpellsSextet(s, i, x, 0) && SpellsSextet(s, i, x, 1) && SpellsSextet(s, i, x, 2) && SpellsSextet(s, i, x, 3)
  }

  lemma DigitOfGroup(s: seq<byte>, i: nat, x: seq<byte>, k: nat, d: int)
    requires i + 4 <= |s| && |x| == OutputBytes(s, i) && k < 4 && 0 <= d
    requires k <= |x| ==> d == DigitValue(s[i + k])
    requires SextetAt(x, k) == if k <= |x| then d else -1
    ensures SpellsSextet(s, i, x, k)
  {
  }

  lemma SextetsOfGroup(s: seq<byte>, i: nat, x: seq<byte>)
    requires i + 4 <= |s| && |x| == OutputBytes(s, i)
    requires GroupValue(s, i) == x[0] * 0x1_0000 + ByteAt(x, 1) * 0x100 + ByteAt(x, 2)
    ensures SpellsGroup(s, i, x)
  {
    var d0, d1 := DigitValue(s[i]), DigitValue(s[i + 1]);
    var d2 := if |x| >= 2 then DigitValue(s[i + 2]) else 0;
    var d3 := if |x| >= 3 then DigitValue(s[i + 3]) else 0;
    SextetsOfDigits(x, d0, d1, d2, d3);
    DigitOfGroup(s, i, x, 0, d0);
    DigitOfGroup(s, i, x, 1, d1);
    DigitOfGroup(s, i, x, 2, d2);
    DigitOfGroup(s, i, x, 3, d3);
  }

  /** A group that decodes is the encoding of its bytes. */
  lemma GroupIsEncoding(s: seq<byte>, i: nat, x: seq<byte>)
    requires i + 4 <= |s| && GroupBytes(s, i) == Ok(x)
    ensures 1 <= |x| <= 3 && (|x| < 3 ==> i + 4 == |s|) && s[i..i + 4] == Encoding(x)
  {
    ValueOfBytes(GroupValue(s, i), OutputBytes(s, i), x);
    SextetsOfGroup(s, i, x);
    CharsOfSextets(s, i, x);
  }

  lemma GroupSpells(s: seq<byte>, i: nat, x: seq<byte>, k: nat)
    requires i + 4 <= |s| && k < 4 && SpellsGroup(s, i, x)
    ensures SpellsSextet(s, i, x, k)
  {
    assert k == 0 || k == 1 || k == 2 || k == 3;
  }

  lemma CharOfSextet(s: seq<byte>, i: nat, x: seq<byte>, k: nat)
    requires i + k < |s| && SpellsSextet(s, i, x, k)
    ensures s[i + k] == Char(SextetAt(x, k))
  {
    DigitOfValue(s[i + k], 0);
  }

  lemma CharsOfSextets(s: seq<byte>, i: nat, x: seq<byte>)
    requires i + 4 <= |s| && 1 <= |x| <= 3 && SpellsGroup(s, i, x)
    ensures s[i..i + 4] == Encoding(x)
  {
    forall k: nat | k < 4 ensures s[i + k] == Char(SextetAt(x, k)) {
      GroupSpells(s, i, x, k);
      CharOfSextet(s, i, x, k);
    }
  }

  /** A full group in front shifts the encoding of what follows. */
  lemma EncodingOfGroups(x: seq<byte>, y: seq<byte>)
    requires |x| == 3
    ensures Encoding(x + y) == Encoding(x) + Encoding(y)
  {
    forall k: nat | k < 4 ensures SextetAt(x + y, k) == SextetAt(x, k) {
    }
    forall k: nat ensures SextetAt(x + y, k + 4) == SextetAt(y, k) {
      assert (k + 4) / 4 == k / 4 + 1 && (k + 4) % 4 == k % 4;
    }
    var z := Encoding(x + y);
    assert forall k :: 4 <= k < |z| ==> z[k] == Char(SextetAt(x + y, (k - 4) + 4));
  }

  lemma {:induction false} ConcatIsEncoding(gs: seq<Decoding>, s: seq<byte>, g: nat, d: seq<byte>)
    requires |s| == 4 * |gs| && g <= |gs| && Concat(gs, g) == Ok(d)
    requires forall k :: 0 <= k < |gs| && gs[k].Ok? ==>
               s[4 * k..4 * k + 4] == Encoding(gs[k].bytes) && (k + 1 < |gs| ==> |gs[k].bytes| == 3)
    ensures s[4 * g..] == Encoding(d)
    decreases |gs| - g
  {
    if g < |gs| {
      var x, y := gs[g].bytes, Concat(gs, g + 1).bytes;
      ConcatIsEncoding(gs, s, g + 1, y);
      assert s[4 * g..] == s[4 * g..4 * g + 4] + s[4 * g + 4..];
      if g + 1 < |gs| {
        EncodingOfGroups(x, y);
      } else {
        assert x + y == x;
      }
    }
  }

  /** Decoding undoes encoding exactly when three bytes fit for every four characters. */
  lemma DecodeOfEncode(data: seq<byte>, s: seq<byte>, space: nat)
    requires s == Encoding(data)
    ensures Decoded(s, space) == Ok(data) <==> |s| / 4 * 3 <= space
  {
    var gs := Groups(s);
    forall k | 0 <= k < |gs| ensures gs[k] == Ok(ChunkAt(data, k)) {
      GroupOfChars(data, s, k);
    }
    ConcatOfChunks(gs, data, 0);
  }

  /** A string is accepted only as the encoding of what it decodes to, padding bits included. */
  lemma AcceptsOnlyCanonical(s: seq<byte>, space: nat, d: seq<byte>)
    requires Decoded(s, space) == Ok(d)
    ensures s == Encoding(d)
  {
    var gs := Groups(s);
    forall k | 0 <= k < |gs| && gs[k].Ok?
      ensures s[4 * k..4 * k + 4] == Encoding(gs[k].bytes) && (k + 1 < |gs| ==> |gs[k].bytes| == 3)
    {
      GroupIsEncoding(s, 4 * k, gs[k].bytes);
    }
    ConcatIsEncoding(gs, s, 0, d);
  }

  // ----- known texts -----

  /** What the encoding of one group is. */
  lemma GroupEncoded(x: seq<byte>, c0: byte, c1: byte, c2: byte, c3: byte)
    requires 1 <= |x| <= 3 && c0 == Char(SextetAt(x, 0)) && c1 == Char(SextetAt(x, 1))
    requires c2 == Char(SextetAt(x, 2)) && c3 == Char(SextetAt(x, 3))
    ensures Encoding(x) == [c0, c1, c2, c3]
  {
  }

  lemma GroupInFront(x: seq<byte>, y: seq<byte>, ex: seq<byte>, ey: seq<byte>, all: seq<byte>, e: seq<byte>)
    requires |x| == 3 && Encoding(x) == ex && Encoding(y) == ey && all == x + y && e == ex + ey
    ensures Encoding(all) == e
  {
    EncodingOfGroups(x, y);
  }

  /** The alphabet ends in a slash: three bytes of 0xFF are "////". */
  lemma HighBytesEncoded()
    ensures Encoding([0xFF, 0xFF, 0xFF]) == [47, 47, 47, 47]
  {
    GroupEncoded([0xFF, 0xFF, 0xFF], 47, 47, 47, 47);
  }

  /** "re." is encoded as "cmUu". */
  lemma EncodesRe()
    ensures Encoding([114, 101, 46]) ==
            [99, 109, 85, 117]
  {
    GroupEncoded([114, 101, 46], 99, 109, 85, 117);
  }

  /** "asure." is encoded as "YXN1cmUu". */
  lemma EncodesAsure()
    ensures Encoding([97, 115, 117, 114, 101, 46]) ==
            [89, 88, 78, 49, 99, 109, 85, 117]
  {
    GroupEncoded([97, 115, 117], 89, 88, 78, 49);
    EncodesRe();
    GroupInFront([97, 115, 117], [114, 101, 46],
                 [89, 88, 78, 49], [99, 109, 85, 117],
                 [97, 115, 117, 114, 101, 46],
                 [89, 88, 78, 49, 99, 109, 85, 117]);
  }

  /** "e." is encoded as "ZS4=". */
  lemma EncodesE()
    ensures Encoding([101, 46]) ==
            [90, 83, 52, 61]
  {
    GroupEncoded([101, 46], 90, 83, 52, 61);
  }

  /** "sure." is encoded as "c3VyZS4=". */
  lemma EncodesSure()
    ensures Encoding([115, 117, 114, 101, 46]) ==
            [99, 51, 86, 121, 90, 83, 52, 61]
  {
    GroupEncoded([115, 117, 114], 99, 51, 86, 121);
    EncodesE();
    GroupInFront([115, 117, 114], [101, 46],
                 [99, 51, 86, 121], [90, 83, 52, 61],
                 [115, 117, 114, 101, 46],
                 [99, 51, 86, 121, 90, 83, 52, 61]);
  }

  /** "." is encoded as "Lg==". */
  lemma EncodesDot()
    ensures Encoding([46]) ==
            [76, 103, 61, 61]
  {
    GroupEncoded([46], 76, 103, 61, 61);
  }

  /** "ure." is encoded as "dXJlLg==". */
  lemma EncodesUre()
    ensures Encoding([117, 114, 101, 46]) ==
            [100, 88, 74, 108, 76, 103, 61, 61]
  {
    GroupEncoded([117, 114, 101], 100, 88, 74, 108);
    EncodesDot();
    GroupInFront([117, 114, 101], [46],
                 [100, 88, 74, 108], [76, 103, 61, 61],
                 [117, 114, 101, 46],
                 [100, 88, 74, 108, 76, 103, 61, 61]);
  }
}

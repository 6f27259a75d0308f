/** Names packed into 32-bit integers, four bytes to each, for the network. */
module NameInts {
  import opened CStrings
  import Utf8

  /** `char` is signed: the byte as the code's arithmetic sees it. */
  function Signed(b: byte): int {
    if b < 0x80 then b else b - 0x100
  }

  function Unsigned(c: int): byte
    requires -0x80 <= c < 0x80
  {
    if c >= 0 then c else c + 0x100
  }

  type int32 = v: int | -0x8000_0000 <= v < 0x8000_0000

  /** Wrap-around of a value of up to 32 bits. */
  function Wrap(v: int): int32
    requires 0 <= v < 0x1_0000_0000
  {
    if v < 0x8000_0000 then v else v - 0x1_0000_0000
  }

  /** Four bytes, each moved up by 128, side by side; as they do not overlap, to join them is to add them. */
  function Pack(a: byte, b: byte, c: byte, d: byte): int32 {
    Wrap((Signed(a) + 128) * 0x100_0000 + (Signed(b) + 128) * 0x1_0000 + (Signed(c) + 128) * 0x100 + (Signed(d) + 128))
  }

  /** Byte `k` of an integer, the highest first: a shift to the right, which rounds down, and a mask. */
  function Lane(v: int32, k: int): (r: int)
    ensures 0 <= r < 0x100
  {
    (match k
     case 0 => v / 0x100_0000
     case 1 => v / 0x1_0000
     case 2 => v / 0x100
     case _ => v) % 0x100
  }

  function Unpack(v: int32, k: int): byte {
    Unsigned(Lane(v, k) - 128)
  }

  /** The mask that clears the lowest byte. */
  function ClearLast(v: int32): int32 {
    v - v % 0x100
  }

  // ----- what the code computes -----

  function At(s: seq<byte>, k: nat): byte {
    if k < |s| then s[k] else 0
  }

  function Word(s: seq<byte>, n: nat, i: nat): int32 {
    var w := Pack(At(s, 4 * i), At(s, 4 * i + 1), At(s, 4 * i + 2), At(s, 4 * i + 3));
    if i == n - 1 then ClearLast(w) else w
  }

  function Packed(s: seq<byte>, n: nat): seq<int32> {
    seq(n, i requires 0 <= i < n => Word(s, n, i))
  }

  /** All bytes of the integers, the last one replaced by the terminator. */
  function Unpacked(ints: seq<int32>): (m: seq<byte>)
    requires ints != []
    ensures |m| == 4 * |ints| && m[|m| - 1] == 0 && Terminated(m, 0)
  {
    seq(4 * |ints|, k requires 0 <= k < 4 * |ints| =>
      if k == 4 * |ints| - 1 then 0 else Unpack(ints[k / 4], k % 4))
  }

  /** The temporary buffer of one round, which keeps the read inside the string. */
  method NextFour(m: seq<byte>, size: nat, i: nat) returns (buf: array<byte>)
    requires size <= |m|
    ensures fresh(buf) && buf.Length == 4
    ensures forall c :: 0 <= c < 4 ==> buf[c] == if 4 * i + c < size then m[4 * i + c] else 0
  {
    buf := new byte[4](_ => 0);
    var c := 0;
    while c < 4 && i * 4 + c < size
      invariant 0 <= c <= 4 && (c > 0 ==> 4 * i + c <= size)
      invariant forall k :: 0 <= k < c ==> buf[k] == m[4 * i + k]
      invariant forall k :: c <= k < 4 ==> buf[k] == 0
    {
      buf[c] := m[i * 4 + c];
      c := c + 1;
    }
  }

  method StrToInts(ints: array<int32>, m: seq<byte>)
    requires ints.Length > 0 && Terminated(m, 0) && |Text(m)| + 1 <= 4 * ints.Length
    modifies ints
    ensures ints[..] == Packed(Text(m), ints.Length)
  {
    var size := StrLen(m, 0) + 1;
    var s, n := Text(m), ints.Length;
    var i := 0;
    while i < n
      invariant 0 <= i <= n
      invariant forall k :: 0 <= k < i ==>
        ints[k] == Pack(At(s, 4 * k), At(s, 4 * k + 1), At(s, 4 * k + 2), At(s, 4 * k + 3))
    {
      var buf := NextFour(m, size, i);
      ints[i] := Pack(buf[0], buf[1], buf[2], buf[3]);
      i := i + 1;
    }
    ints[n - 1] := ClearLast(ints[n - 1]);
  }

  method UnpackAll(ints: array<int32>, str: array<byte>)
    requires str.Length >= 4 * ints.Length
    modifies str
    ensures forall k :: 0 <= k < 4 * ints.Length ==> str[k] == Unpack(ints[k / 4], k % 4)
    ensures forall k :: 4 * ints.Length <= k < str.Length ==> str[k] == old(str[k])
  {
    var index := 0;
    var i := 0;
    while i < ints.Length
      invariant 0 <= i <= ints.Length && index == 4 * i
      invariant forall k :: 0 <= k < index ==> str[k] == Unpack(ints[k / 4], k % 4)
      invariant forall k :: index <= k < str.Length ==> str[k] == old(str[k])
    {
      UnpackOne(ints[i], str, i);
      index := index + 4;
      i := i + 1;
    }
  }

  method UnpackOne(current: int32, str: array<byte>, i: nat)
    requires 4 * i + 4 <= str.Length
    modifies str
    ensures forall k :: 4 * i <= k < 4 * i + 4 ==> str[k] == Unpack(current, k % 4)
    ensures forall k :: 0 <= k < str.Length && k / 4 != i ==> str[k] == old(str[k])
  {
    var index := 4 * i;
    str[index] := Unpack(current, 0);
    str[index + 1] := Unpack(current, 1);
    str[index + 2] := Unpack(current, 2);
    str[index + 3] := Unpack(current, 3);
  }

  /** The result tells whether the unpacked string is valid UTF-8; if it is not, an empty string is left. */
  method IntsToStr(ints: array<int32>, str: array<byte>) returns (ok: bool)
    requires ints.Length > 0 && str.Length >= 4 * ints.Length
    modifies str
    ensures ok <==> Utf8.Valid(Text(Unpacked(ints[..])))
    ensures forall k :: 0 <= k < 4 * ints.Length ==> str[k] == if k == 0 && !ok then 0 else Unpacked(ints[..])[k]
    ensures forall k :: 4 * ints.Length <= k < str.Length ==> str[k] == old(str[k])
  {
    UnpackAll(ints, str);
    str[4 * ints.Length - 1] := 0;
    ghost var all := Unpacked(ints[..]);
    assert all <= str[..];
    TextIs(str[..], Text(all));
    ok := Utf8.Check(str[..], 0);
    Utf8.CheckAcceptsExactlyUtf8(str[..]);
    if !ok {
      str[0] := 0;
    }
  }

  // ----- there and back -----

  lemma Lanes(v: int32, w: int, x: int, y: int, z: int, carry: int)
    requires 0 <= w < 0x100 && 0 <= x < 0x100 && 0 <= y < 0x100 && 0 <= z < 0x100
    requires v == w * 0x100_0000 + x * 0x1_0000 + y * 0x100 + z - carry * 0x1_0000_0000
    ensures Lane(v, 0) == w && Lane(v, 1) == x && Lane(v, 2) == y && Lane(v, 3) == z
  {
    assert v / 0x100_0000 == w - carry * 0x100;
    assert v / 0x1_0000 == x + (w - carry * 0x100) * 0x100;
    assert v / 0x100 == y + (x + (w - carry * 0x100) * 0x100) * 0x100;
  }

  lemma LanesOfPack(a: byte, b: byte, c: byte, d: byte, v: int32)
    requires v == Pack(a, b, c, d)
    ensures Unpack(v, 0) == a && Unpack(v, 1) == b && Unpack(v, 2) == c && Unpack(v, 3) == d
    ensures var u := ClearLast(v); Unpack(u, 0) == a && Unpack(u, 1) == b && Unpack(u, 2) == c
  {
    var w, x, y, z := Signed(a) + 128, Signed(b) + 128, Signed(c) + 128, Signed(d) + 128;
    var carry := if w * 0x100_0000 + x * 0x1_0000 + y * 0x100 + z < 0x8000_0000 then 0 else 1;
    Lanes(v, w, x, y, z, carry);
    assert ClearLast(v) == v - z;
    Lanes(ClearLast(v), w, x, y, 0, carry);
  }

  lemma LaneOfWord(s: seq<byte>, n: nat, i: nat, c: nat)
    requires i < n && c < 4 && 4 * i + c < 4 * n - 1
    ensures Unpack(Word(s, n, i), c) == At(s, 4 * i + c)
  {
    var v := Pack(At(s, 4 * i), At(s, 4 * i + 1), At(s, 4 * i + 2), At(s, 4 * i + 3));
    LanesOfPack(At(s, 4 * i), At(s, 4 * i + 1), At(s, 4 * i + 2), At(s, 4 * i + 3), v);
  }

  /** Unpacking what was packed gives the string back, with zeros in all the rest. */
  lemma UnpackOfPack(s: seq<byte>, n: nat)
    requires n > 0 && |s| <= 4 * n - 1
    ensures Unpacked(Packed(s, n)) == s + Zeros(4 * n - |s|)
  {
    var p := Packed(s, n);
    forall k | 0 <= k < 4 * n - 1 ensures Unpack(p[k / 4], k % 4) == At(s, k) {
      LaneOfWord(s, n, k / 4, k % 4);
    }
  }

  /** The text of any name of up to 4n - 1 bytes survives the packing, and with it whether it is valid UTF-8. */
  lemma RoundTrip(m: seq<byte>, n: nat)
    requires n > 0 && Terminated(m, 0) && |Text(m)| + 1 <= 4 * n
    ensures Text(Unpacked(Packed(Text(m), n))) == Text(m)
    ensures Utf8.Valid(Text(Unpacked(Packed(Text(m), n)))) <==> Utf8.Valid(Text(m))
  {
    var s := Text(m);
    UnpackOfPack(s, n);
    TextIs(Unpacked(Packed(s, n)), s);
  }

  lemma ReceivedText(s: seq<byte>, n: nat, str: seq<byte>, ok: bool)
    requires 0 !in s && |s| < 4 * n <= |str|
    requires forall k :: 0 <= k < 4 * n ==> str[k] == if k == 0 && !ok then 0 else At(s, k)
    ensures Terminated(str, 0) && Text(str) == if ok then s else []
    ensures ok ==> forall k :: |s| <= k < 4 * n ==> str[k] == 0
  {
    var t := if ok then s else [];
    assert t + [0] <= str;
    TextIs(str, t);
  }

  lemma UnpackedAt(s: seq<byte>, n: nat, u: seq<byte>)
    requires n > 0 && |s| <= 4 * n - 1 && 0 !in s && u == Unpacked(Packed(s, n))
    ensures Text(u) == s && |u| == 4 * n && forall k :: 0 <= k < 4 * n ==> u[k] == At(s, k)
  {
    UnpackOfPack(s, n);
    TextIs(u, s);
  }

  /** Reading integers that hold the name `s`. */
  method Receive(ints: array<int32>, str: array<byte>, ghost s: seq<byte>) returns (ok: bool)
    requires ints.Length > 0 && 0 !in s && |s| < 4 * ints.Length <= str.Length && ints[..] == Packed(s, ints.Length)
    modifies str
    ensures ok <==> Utf8.Valid(s)
    ensures forall k :: 0 <= k < 4 * ints.Length ==> str[k] == if k == 0 && !ok then 0 else At(s, k)
    ensures forall k :: 4 * ints.Length <= k < str.Length ==> str[k] == old(str[k])
  {
    UnpackedAt(s, ints.Length, Unpacked(ints[..]));
    ok := IntsToStr(ints, str);
  }

  /** There and back through the integers: accepted if and only if the name is valid UTF-8; then the buffer holds the
      name and zeros, and else an empty string. */
  method SendAndReceive(m: seq<byte>, ints: array<int32>, str: array<byte>) returns (ok: bool)
    requires ints.Length > 0 && Terminated(m, 0) && |Text(m)| + 1 <= 4 * ints.Length <= str.Length
    modifies ints, str
    ensures ok <==> Utf8.Valid(Text(m))
    ensures Terminated(str[..], 0) && Text(str[..]) == if ok then Text(m) else []
    ensures ok ==> forall k :: |Text(m)| <= k < 4 * ints.Length ==> str[k] == 0
    ensures forall k :: 4 * ints.Length <= k < str.Length ==> str[k] == old(str[k])
  {
    StrToInts(ints, m);
    ok := Receive(ints, str, Text(m));
    ReceivedText(Text(m), ints.Length, str[..], ok);
  }

  lemma SignedUnpack(v: int32, k: int)
    ensures Signed(Unpack(v, k)) + 128 == Lane(v, k)
  {
  }

  lemma Shifts(v: int)
    ensures v / 0x1_0000 == v / 0x100 / 0x100 && v / 0x100_0000 == v / 0x1_0000 / 0x100
  {
  }

  lemma Fields(v: int32, w: int, x: int, y: int, z: int)
    requires w == Lane(v, 0) && x == Lane(v, 1) && y == Lane(v, 2) && z == Lane(v, 3)
    ensures Wrap(w * 0x100_0000 + x * 0x1_0000 + y * 0x100 + z) == v
  {
    Shifts(v);
    var r, q, hi := v / 0x100, v / 0x1_0000, v / 0x100_0000;
    assert v == r * 0x100 + z && r == q * 0x100 + y && q == hi * 0x100 + x;
    assert w == if hi < 0 then hi + 0x100 else hi;
  }

  lemma PackOfLanes(v: int32)
    ensures Pack(Unpack(v, 0), Unpack(v, 1), Unpack(v, 2), Unpack(v, 3)) == v
  {
    SignedUnpack(v, 0);
    SignedUnpack(v, 1);
    SignedUnpack(v, 2);
    SignedUnpack(v, 3);
    Fields(v, Lane(v, 0), Lane(v, 1), Lane(v, 2), Lane(v, 3));
  }

  lemma SumFits(w: int, x: int, y: int, z: int)
    requires 0 <= w < 0x100 && 0 <= x < 0x100 && 0 <= y < 0x100 && 0 <= z < 0x100
    ensures ClearLast(Wrap(w * 0x100_0000 + x * 0x1_0000 + y * 0x100 + z))
         == Wrap(w * 0x100_0000 + x * 0x1_0000 + y * 0x100)
  {
    var r := w * 0x1_0000 + x * 0x100 + y;
    assert w * 0x100_0000 + x * 0x1_0000 + y * 0x100 == 0x100 * r;
  }

  lemma PackOfClear(v: int32)
    requires Lane(v, 3) == 0
    ensures ClearLast(Pack(Unpack(v, 0), Unpack(v, 1), Unpack(v, 2), 0)) == v
  {
    SignedUnpack(v, 0);
    SignedUnpack(v, 1);
    SignedUnpack(v, 2);
    Fields(v, Lane(v, 0), Lane(v, 1), Lane(v, 2), 0);
    SumFits(Lane(v, 0), Lane(v, 1), Lane(v, 2), 128);
  }

  /** Integers that `StrToInts` can produce: nothing follows the end of the name, and the last byte is clear. */
  ghost predicate Canonical(ints: seq<int32>)
    requires ints != []
  {
    var u := Unpacked(ints);
    Lane(ints[|ints| - 1], 3) == 0 && forall k :: |Text(u)| <= k < |u| ==> u[k] == 0
  }

  lemma WordFrom(t: seq<byte>, n: nat, i: nat, v: int32)
    requires i < n
    requires At(t, 4 * i) == Unpack(v, 0) && At(t, 4 * i + 1) == Unpack(v, 1) && At(t, 4 * i + 2) == Unpack(v, 2)
    requires if i == n - 1 then At(t, 4 * i + 3) == 0 && Lane(v, 3) == 0 else At(t, 4 * i + 3) == Unpack(v, 3)
    ensures Word(t, n, i) == v
  {
    if i == n - 1 {
      PackOfClear(v);
    } else {
      PackOfLanes(v);
    }
  }

  lemma AtText(u: seq<byte>, t: seq<byte>, k: nat)
    requires Terminated(u, 0) && t == Text(u) && k < |u| && (k >= |t| ==> u[k] == 0)
    ensures At(t, k) == u[k]
  {
  }

  lemma LaneOfUnpacked(ints: seq<int32>, u: seq<byte>, i: nat, c: nat)
    requires i < |ints| && u == Unpacked(ints) && c < 4 && 4 * i + c < 4 * |ints| - 1
    ensures u[4 * i + c] == Unpack(ints[i], c)
  {
  }

  lemma WordOfUnpacked(ints: seq<int32>, u: seq<byte>, t: seq<byte>, i: nat)
    requires i < |ints| && u == Unpacked(ints) && t == Text(u) && Canonical(ints)
    ensures Word(t, |ints|, i) == ints[i]
  {
    AtText(u, t, 4 * i);
    AtText(u, t, 4 * i + 1);
    AtText(u, t, 4 * i + 2);
    AtText(u, t, 4 * i + 3);
    LaneOfUnpacked(ints, u, i, 0);
    LaneOfUnpacked(ints, u, i, 1);
    LaneOfUnpacked(ints, u, i, 2);
    if i < |ints| - 1 {
      LaneOfUnpacked(ints, u, i, 3);
    }
    WordFrom(t, |ints|, i, ints[i]);
  }

  lemma ClearedLane(v: int32)
    ensures Lane(ClearLast(v), 3) == 0
  {
  }

  lemma LastLaneClear(t: seq<byte>, n: nat)
    requires n > 0
    ensures Lane(Packed(t, n)[n - 1], 3) == 0
  {
    var i := n - 1;
    ClearedLane(Pack(At(t, 4 * i), At(t, 4 * i + 1), At(t, 4 * i + 2), At(t, 4 * i + 3)));
  }

  lemma ZerosFollow(u: seq<byte>, t: seq<byte>, n: nat)
    requires n <= |u| && u == t + Zeros(n)
    ensures forall k :: |t| <= k < |u| ==> u[k] == 0
  {
  }

  lemma UnpackedIsFilled(t: seq<byte>, n: nat, u: seq<byte>)
    requires n > 0 && u == Unpacked(Packed(t, n)) && t == Text(u)
    ensures forall k :: |t| <= k < |u| ==> u[k] == 0
  {
    UnpackOfPack(t, n);
    ZerosFollow(u, t, 4 * n - |t|);
  }

  lemma PackedIsCanonical(ints: seq<int32>, u: seq<byte>, t: seq<byte>)
    requires ints != [] && u == Unpacked(ints) && t == Text(u) && Packed(t, |ints|) == ints
    ensures Canonical(ints)
  {
    UnpackedIsFilled(t, |ints|, u);
    LastLaneClear(t, |ints|);
  }

  /** Packing what was unpacked gives the integers back exactly if they are of that kind. */
  lemma PackOfUnpack(ints: seq<int32>)
    requires ints != []
    ensures Packed(Text(Unpacked(ints)), |ints|) == ints <==> Canonical(ints)
  {
    var u := Unpacked(ints);
    var t := Text(u);
    if Canonical(ints) {
      forall i | 0 <= i < |ints| ensures Packed(t, |ints|)[i] == ints[i] {
        WordOfUnpacked(ints, u, t, i);
      }
    }
    if Packed(t, |ints|) == ints {
      PackedIsCanonical(ints, u, t);
    }
  }

  // ----- known names -----

  lemma WordsAre(s: seq<byte>, a: int32, b: int32, c: int32)
    requires Word(s, 3, 0) == a && Word(s, 3, 1) == b && Word(s, 3, 2) == c
    ensures Packed(s, 3) == [a, b, c]
  {
  }

  /** Letters of one to four bytes: 0xE14E3263, 0x0104701F and 0x10188000, as signed integers. */
  lemma LettersPacked()
    ensures Packed([0x61, 0xCE, 0xB2, 0xE3, 0x81, 0x84, 0xF0, 0x9F, 0x90, 0x98], 3)
         == [0xE14E3263 - 0x1_0000_0000, 0x0104701F, 0x10188000]
  {
    WordsAre([0x61, 0xCE, 0xB2, 0xE3, 0x81, 0x84, 0xF0, 0x9F, 0x90, 0x98],
             0xE14E3263 - 0x1_0000_0000, 0x0104701F, 0x10188000);
  }

  /** The empty name, with nothing but fill: 0x80808080 twice, and 0x80808000. */
  lemma EmptyPacked()
    ensures Packed([], 3)
         == [0x80808080 - 0x1_0000_0000, 0x80808080 - 0x1_0000_0000, 0x80808000 - 0x1_0000_0000]
  {
    WordsAre([], 0x80808080 - 0x1_0000_0000, 0x80808080 - 0x1_0000_0000, 0x80808000 - 0x1_0000_0000);
  }
}

/** The streaming SHA-256 of the base library: messages arrive in pieces through a 64-byte buffer. */
module Sha256 {
  import opened CStrings
  import opened Memory
  import opened Sha256Words
  import opened Sha256Spec

  // ----- compressing one block -----

  ghost function RegsOf(s: array<Word>): Regs
    requires s.Length == 8
    reads s
  {
    Regs(s[0], s[1], s[2], s[3], s[4], s[5], s[6], s[7])
  }

  lemma ScheduleInit(block: Block, n: nat)
    requires 0 < n <= 64
    ensures Schedule(block, n - 1) <= Schedule(block, n)
  {
  }

  lemma PrefixOfPrefix(v: seq<Word>, w: seq<Word>, m: nat)
    requires v <= w && m <= |v|
    ensures w[..m] == v[..m]
  {
  }

  lemma {:induction false} SchedulePrefix(block: Block, m: nat, n: nat, w: seq<Word>)
    requires m <= n <= 64 && w == Schedule(block, n)
    ensures w[..m] == Schedule(block, m)
    decreases n
  {
    if m < n {
      var v := Schedule(block, n - 1);
      SchedulePrefix(block, m, n - 1, v);
      ScheduleInit(block, n);
      PrefixOfPrefix(v, w, m);
    }
  }

  lemma ScheduleWord(block: Block, all: seq<Word>, t: nat)
    requires t < 64 && all == Schedule(block, 64)
    ensures all[t] == if t < 16 then LoadWord(block, 4 * t)
                      else Sum4(SmallSigma1(all[t - 2]), all[t - 7], SmallSigma0(all[t - 15]), all[t - 16])
  {
    SchedulePrefix(block, t + 1, 64, all);
    var w := Schedule(block, t);
    assert all[..t + 1][t] == all[t] && Schedule(block, t + 1)[..t] == w;
    assert forall j :: 0 <= j < t ==> all[j] == all[..t + 1][j] == w[j];
  }

  /** Fills `W[0..64]`. */
  method FillSchedule(block: Block) returns (w: array<Word>)
    ensures fresh(w) && w.Length == 64 && w[..] == Schedule(block, 64)
  {
    ghost var all := Schedule(block, 64);
    w := new Word[64](_ => 0);
    var i := 0;
    while i < 16
      invariant 0 <= i <= 16 && forall j :: 0 <= j < i ==> w[j] == all[j]
    {
      ScheduleWord(block, all, i);
      w[i] := LoadWord(block, 4 * i);
      i := i + 1;
    }
    while i < 64
      invariant 16 <= i <= 64 && forall j :: 0 <= j < i ==> w[j] == all[j]
    {
      ScheduleWord(block, all, i);
      SigmasAgree(w[i - 2]);
      SigmasAgree(w[i - 15]);
      w[i] := Sum4(Gamma1(w[i - 2]), w[i - 7], Gamma0(w[i - 15]), w[i - 16]);
      i := i + 1;
    }
  }

  /** One round: `d` and `h` are updated in place, then every register moves up by one. */
  method RoundInPlace(s: array<Word>, k: Word, w: Word)
    requires s.Length == 8
    modifies s
    ensures RegsOf(s) == Round(old(RegsOf(s)), k, w)
  {
    SigmasAgree(s[0]);
    SigmasAgree(s[4]);
    ChAgrees(s[4], s[5], s[6]);
    MajAgrees(s[0], s[1], s[2]);
    var t0 := Sum5(s[7], Sigma1(s[4]), ChFast(s[4], s[5], s[6]), k, w);
    var t1 := Add(Sigma0(s[0]), MajFast(s[0], s[1], s[2]));
    s[3] := Add(s[3], t0);
    s[7] := Add(t0, t1);
    var t := s[7];
    s[7] := s[6];
    s[6] := s[5];
    s[5] := s[4];
    s[4] := s[3];
    s[3] := s[2];
    s[2] := s[1];
    s[1] := s[0];
    s[0] := t;
  }

  /** The copy of the registers that the rounds work on. */
  method CopyRegs(state: array<Word>) returns (s: array<Word>)
    requires state.Length == 8
    ensures fresh(s) && s.Length == 8 && RegsOf(s) == RegsOf(state)
  {
    s := new Word[8](_ => 0);
    var i := 0;
    while i < 8
      invariant 0 <= i <= 8 && forall j :: 0 <= j < i ==> s[j] == state[j]
    {
      s[i] := state[i];
      i := i + 1;
    }
  }

  method AllRounds(s: array<Word>, table: seq<Word>, w: array<Word>)
    requires s.Length == 8 && |table| == 64 && w.Length == 64 && s != w
    modifies s
    ensures RegsOf(s) == Rounds(old(RegsOf(s)), table, w[..], 64)
  {
    var i := 0;
    while i < 64
      invariant 0 <= i <= 64 && w[..] == old(w[..])
      invariant RegsOf(s) == Rounds(old(RegsOf(s)), table, w[..], i)
    {
      RoundInPlace(s, table[i], w[i]);
      i := i + 1;
    }
  }

  /** The feedback loop. */
  method AddInPlace(state: array<Word>, s: array<Word>)
    requires state.Length == 8 && s.Length == 8 && state != s
    modifies state
    ensures RegsOf(state) == AddRegs(old(RegsOf(state)), RegsOf(s))
  {
    var i := 0;
    while i < 8
      invariant 0 <= i <= 8
      invariant forall j :: 0 <= j < 8 ==> state[j] == if j < i then Add(old(state[j]), s[j]) else old(state[j])
    {
      state[i] := Add(state[i], s[i]);
      i := i + 1;
    }
  }

  method CompressBlock(state: array<Word>, block: Block)
    requires state.Length == 8
    modifies state
    ensures RegsOf(state) == Compress(old(RegsOf(state)), block)
  {
    var s := CopyRegs(state);
    var w := FillSchedule(block);
    AllRounds(s, K, w);
    AddInPlace(state, s);
  }

  // ----- the stream -----

  const LENGTH_MODULUS: nat := 0x1_0000_0000_0000_0000
  const SIZE_MODULUS: nat := 0x1_0000_0000

  /** `f` gives the hash value after any number of whole blocks: section 6.2, without unfolding it. */
  ghost predicate IsChain(f: seq<byte> -> Regs) {
    && f([]) == INITIAL
    && forall w: seq<byte>, b: Block {:trigger f(w + b)} :: |w| % 64 == 0 ==> f(w + b) == Compress(f(w), b)
  }

  lemma SomeChain() returns (f: seq<byte> -> Regs)
    ensures IsChain(f)
  {
    f := (w: seq<byte>) => Fold(INITIAL, w);
    forall w: seq<byte>, b: Block | |w| % 64 == 0 ensures f(w + b) == Compress(f(w), b) {
      FoldOne(INITIAL, w, b);
    }
  }

  method SetRegs(s: array<Word>, r: Regs)
    requires s.Length == 8
    modifies s
    ensures RegsOf(s) == r
  {
    s[0], s[1], s[2], s[3] := r.a, r.b, r.c, r.d;
    s[4], s[5], s[6], s[7] := r.e, r.f, r.g, r.h;
  }

  lemma {:induction false} ChainIsFold(f: seq<byte> -> Regs, w: seq<byte>)
    requires IsChain(f) && |w| % 64 == 0
    ensures f(w) == Fold(INITIAL, w)
    decreases |w|
  {
    if w != [] {
      var v, b: Block := w[..|w| - 64], w[|w| - 64..];
      assert w == v + b;
      ChainIsFold(f, v);
      FoldOne(INITIAL, v, b);
    } else {
      assert w == [];
    }
  }

  function BitLength(n: nat): nat { 8 * n % LENGTH_MODULUS }

  lemma BitLengthAdds(n: nat, k: nat)
    ensures (BitLength(n) + 8 * k) % LENGTH_MODULUS == BitLength(n + k)
  {
  }

  class Context {
    ghost const chain: seq<byte> -> Regs
    var length: nat
    const state: array<Word>
    var curlen: nat
    const buf: array<byte>
    /** The bytes that have been compressed. */
    ghost var whole: seq<byte>

    /** The registers hold the hash value of `whole`. */
    ghost predicate Ready()
      reads this, state, buf
    {
      && state.Length == 8 && buf.Length == 64 && curlen <= 64
      && IsChain(chain) && |whole| % 64 == 0 && RegsOf(state) == chain(whole)
    }

    ghost predicate Valid()
      reads this, state, buf
    {
      Ready() && length == BitLength(|whole|)
    }

    /** Everything that has been fed in so far. */
    ghost function Message(): seq<byte>
      requires Ready()
      reads this, state, buf
    {
      whole + buf[..curlen]
    }

    constructor ()
      ensures Valid() && curlen == 0 && fresh(state) && fresh(buf) && Message() == []
    {
      var s := new Word[8](_ => 0);
      SetRegs(s, INITIAL);
      curlen, length, whole := 0, 0, [];
      state := s;
      buf := new byte[64](_ => 0);
      ghost var f := SomeChain();
      chain := f;
    }

    /** Compresses a block that follows the compressed bytes. */
    method Extend(block: Block)
      requires Ready()
      modifies `whole, state
      ensures Ready() && whole == old(whole) + block
    {
      CompressBlock(state, block);
      whole := whole + block;
    }

    /** The same, and counts its bits. */
    method Absorb(block: Block)
      requires Valid()
      modifies `length, `whole, state
      ensures Valid() && whole == old(whole) + block
    {
      BitLengthAdds(|whole|, 64);
      Extend(block);
      length := (length + 64 * 8) % LENGTH_MODULUS;
    }

    /** Compresses the full buffer. */
    method Flush()
      requires Valid() && curlen == 64
      modifies `length, `curlen, `whole, state
      ensures Valid() && curlen == 0 && Message() == old(Message())
    {
      assert buf[..curlen] == buf[..];
      Absorb(buf[..]);
      curlen := 0;
    }

    /** Copies bytes behind those that wait in the buffer, and compresses it once it is full. */
    method Buffer(src: seq<byte>)
      requires Valid() && curlen < 64 && curlen + |src| <= 64
      modifies this, state, buf
      ensures Valid() && curlen < 64 && Message() == old(Message()) + src
    {
      MemCopy(buf, curlen, src);
      curlen := curlen + |src|;
      assert Message() == old(Message()) + src;
      if curlen == 64 {
        Flush();
      }
    }

    /** One turn of `sha_process`: a whole block goes straight through when the buffer is empty. */
    method ProcessSome(src: seq<byte>) returns (n: nat)
      requires Valid() && curlen < 64 && src != []
      modifies this, state, buf
      ensures Valid() && curlen < 64 && 0 < n <= |src| && Message() == old(Message()) + src[..n]
    {
      if curlen == 0 && |src| >= 64 {
        Absorb(src[..64]);
        n := 64;
      } else {
        n := if |src| < 64 - curlen then |src| else 64 - curlen;
        Buffer(src[..n]);
      }
    }

    /** `sha_process`. */
    method Process(src: seq<byte>)
      requires Valid() && curlen < 64 && |src| < SIZE_MODULUS
      modifies this, state, buf
      ensures Valid() && curlen < 64 && Message() == old(Message()) + src
    {
      var rest := src;
      while rest != []
        invariant Valid() && curlen < 64 && Message() + rest == old(Message()) + src
        decreases |rest|
      {
        var n := ProcessSome(rest);
        assert rest == rest[..n] + rest[n..];
        rest := rest[n..];
      }
    }

    /** `sha256_update`: the length passes through a 32-bit parameter on its way. */
    method Update(data: seq<byte>)
      requires Valid() && curlen < 64
      modifies this, state, buf
      ensures Valid() && curlen < 64
      ensures Message() == old(Message()) + data[..|data| % SIZE_MODULUS]
    {
      Process(data[..|data| % SIZE_MODULUS]);
    }

    /** Puts `src` behind the bytes that wait, with room for all of it. */
    method Put(src: seq<byte>)
      requires Ready() && curlen + |src| <= 64
      modifies `curlen, buf
      ensures Ready() && curlen == old(curlen) + |src| && Message() == old(Message()) + src
    {
      MemCopy(buf, curlen, src);
      curlen := curlen + |src|;
    }

    method ZeroTo(n: nat)
      requires Ready() && curlen <= n <= 64
      modifies `curlen, buf
      ensures Ready() && curlen == n && Message() == old(Message()) + Zeros(n - old(curlen))
    {
      MemZero(buf, curlen, n);
      curlen := n;
      assert buf[..n] == old(buf[..curlen]) + Zeros(n - old(curlen));
    }

    method CompressBuffer()
      requires Ready() && curlen == 64
      modifies `curlen, `whole, state
      ensures Ready() && curlen == 0 && whole == old(Message())
    {
      assert buf[..curlen] == buf[..];
      Extend(buf[..]);
      curlen := 0;
    }

    /** Zeros up to the end of the block, which is then compressed. */
    method FlushZeros()
      requires Ready()
      modifies `whole, `curlen, state, buf
      ensures Ready() && curlen == 0 && Message() == old(Message()) + Zeros(64 - old(curlen))
    {
      ZeroTo(64);
      CompressBuffer();
    }

    /** The one bit, and zeros up to the end of the block when the length has no room in it. */
    method PadOne() returns (ghost z: nat)
      requires Valid() && curlen < 64
      modifies this, state, buf
      ensures Ready() && length == BitLength(|old(Message())|)
      ensures z == (if old(curlen) < 56 then 0 else 63 - old(curlen))
      ensures curlen == (if old(curlen) < 56 then old(curlen) + 1 else 0)
      ensures Message() == old(Message()) + [0x80] + Zeros(z)
    {
      BitLengthAdds(|whole|, curlen);
      length := (length + curlen * 8) % LENGTH_MODULUS;
      z := 0;
      Put([0x80]);
      if curlen > 56 {
        z := 64 - curlen;
        FlushZeros();
      }
    }

    /** The first half of `sha_done`: the one bit and the zeros. */
    method PadToLength()
      requires Valid() && curlen < 64
      modifies this, state, buf
      ensures Ready() && curlen == 56 && length == BitLength(|old(Message())|)
      ensures Message() == old(Message()) + [0x80] + Zeros((119 - |old(Message())| % 64) % 64)
    {
      ghost var m, c := Message(), curlen;
      PendingIsRest(|whole|, c);
      ghost var z := PadOne();
      PadLength(c, z, curlen);
      ZerosBehind(m + [0x80], z, 56 - curlen);
      ZeroTo(56);
    }

    /** `sha_done`: pads, compresses what is left and writes the eight words. */
    method Finish(out: array<byte>)
      requires Valid() && curlen < 64 && out.Length == 32 && out != buf
      modifies this, state, buf, out
      ensures out[..] == Digest(old(Message()))
    {
      ghost var m := Message();
      PadToLength();
      PutLength();
      CompressBuffer();
      assert whole == Pad(m);
      ChainIsFold(chain, whole);
      StoreRegs(state, out);
    }

    /** The length in bits, in the last eight bytes of the buffer. */
    method PutLength()
      requires Ready() && curlen == 56
      modifies `curlen, buf
      ensures Ready() && curlen == 64 && Message() == old(Message()) + Length64(length)
    {
      Store64(length, buf, 56);
      curlen := 64;
    }
  }

  lemma ZerosBehind(s: seq<byte>, a: nat, b: nat)
    ensures s + Zeros(a) + Zeros(b) == s + Zeros(a + b)
  {
    assert Zeros(a) + Zeros(b) == Zeros(a + b);
  }

  lemma PendingIsRest(whole: nat, c: nat)
    requires whole % 64 == 0 && c < 64
    ensures (whole + c) % 64 == c
  {
  }

  /** The zeros of a full block and those up to byte 56, when `c` bytes wait. */
  lemma PadLength(c: nat, z: nat, n: nat)
    requires c < 64 && z == (if c < 56 then 0 else 63 - c) && n == if c < 56 then c + 1 else 0
    ensures z + (56 - n) == (119 - c) % 64
  {
  }

  method Store64(x: nat, y: array<byte>, at: nat)
    requires at + 8 <= y.Length
    modifies y
    ensures y[..] == old(y[..at]) + Length64(x) + old(y[at + 8..])
  {
    var i := 0;
    while i < 8
      invariant 0 <= i <= 8
      invariant forall k :: at <= k < at + i ==> y[k] == Length64(x)[k - at]
      invariant forall k :: 0 <= k < at || at + i <= k < y.Length ==> y[k] == old(y[k])
    {
      y[at + i] := x / Pow256(7 - i) % 0x100;
      i := i + 1;
    }
  }

  method StoreByte(x: Word, i: nat, y: array<byte>, at: nat, ghost bytes: seq<byte>)
    requires i < 4 && bytes == WordBytes(x) && at + i < y.Length
    modifies y
    ensures y[..] == old(y[..])[at + i := bytes[i]]
  {
    y[at + i] := WordByte(x, i);
  }

  /** Memory that held `was`, with some bytes over it from `at` on. */
  function Overlaid(was: seq<byte>, at: nat, bytes: seq<byte>): (s: seq<byte>)
    requires at + |bytes| <= |was|
    ensures |s| == |was|
  {
    was[..at] + bytes + was[at + |bytes|..]
  }

  lemma OverlaidNext(was: seq<byte>, at: nat, bytes: seq<byte>, i: nat)
    requires at + |bytes| <= |was| && i < |bytes|
    ensures Overlaid(was, at, bytes[..i])[at + i := bytes[i]] == Overlaid(was, at, bytes[..i + 1])
  {
  }

  method StoreBytes(x: Word, y: array<byte>, at: nat, ghost bytes: seq<byte>)
    requires at + 4 <= y.Length && |bytes| == 4 && bytes == WordBytes(x)
    modifies y
    ensures y[..] == old(y[..at]) + bytes + old(y[at + 4..])
  {
    ghost var was := y[..];
    var i := 0;
    while i < 4
      invariant 0 <= i <= 4
      invariant y[..] == Overlaid(was, at, bytes[..i])
    {
      StoreByte(x, i, y, at, bytes);
      OverlaidNext(was, at, bytes, i);
      i := i + 1;
    }
    assert bytes[..4] == bytes;
  }

  method Store32(x: Word, y: array<byte>, at: nat)
    requires at + 4 <= y.Length
    modifies y
    ensures y[..] == old(y[..at]) + WordBytes(x) + old(y[at + 4..])
  {
    StoreBytes(x, y, at, WordBytes(x));
  }

  method StoreRegs(state: array<Word>, out: array<byte>)
    requires state.Length == 8 && out.Length == 32
    modifies out
    ensures out[..] == RegsBytes(RegsOf(state))
  {
    var i := 0;
    while i < 8
      invariant 0 <= i <= 8 && out[..4 * i] == WordsBytes(state[..i])
    {
      Store32(state[i], out, 4 * i);
      i := i + 1;
      assert state[..i][..i - 1] == state[..i - 1];
      assert out[..4 * i] == WordsBytes(state[..i - 1]) + WordBytes(state[i - 1]);
    }
    var r := RegsOf(state);
    assert state[..8] == [r.a, r.b, r.c, r.d, r.e, r.f, r.g, r.h];
    assert out[..32] == out[..];
  }

  // ----- any way of feeding a message in -----

  function Flatten(parts: seq<seq<byte>>): (s: seq<byte>) {
    if parts == [] then [] else Flatten(parts[..|parts| - 1]) + parts[|parts| - 1]
  }

  /** What arrives of each part when its size is cut to 32 bits. */
  function Seen(parts: seq<seq<byte>>): (s: seq<byte>) {
    if parts == [] then []
    else
      var last := parts[|parts| - 1];
      Seen(parts[..|parts| - 1]) + last[..|last| % SIZE_MODULUS]
  }

  /** The whole message arrives exactly when every part is shorter than 2^32 bytes. */
  lemma {:induction false} SeenIsAll(parts: seq<seq<byte>>)
    ensures |Seen(parts)| <= |Flatten(parts)|
    ensures Seen(parts) == Flatten(parts) <==> forall p <- parts :: |p| < SIZE_MODULUS
  {
    if parts != [] {
      var front, last := parts[..|parts| - 1], parts[|parts| - 1];
      SeenIsAll(front);
      assert parts == front + [last];
      if |last| < SIZE_MODULUS {
        assert last[..|last|] == last;
        if Seen(parts) == Flatten(parts) {
          assert Seen(parts)[..|Seen(front)|] == Seen(front) && |Seen(front)| == |Flatten(front)|;
          assert Flatten(parts)[..|Flatten(front)|] == Flatten(front);
        }
      } else {
        assert last in parts;
        assert |Seen(parts)| < |Flatten(parts)|;
      }
    }
  }

  /** Init, one update for each part, finish. */
  method HashParts(parts: seq<seq<byte>>, out: array<byte>)
    requires out.Length == 32
    modifies out
    ensures out[..] == Digest(Seen(parts))
    ensures (forall p <- parts :: |p| < SIZE_MODULUS) ==> out[..] == Digest(Flatten(parts))
  {
    var context := new Context();
    var i := 0;
    while i < |parts|
      invariant 0 <= i <= |parts| && context.Valid() && context.curlen < 64
      invariant fresh(context) && fresh(context.buf) && fresh(context.state)
      invariant context.Message() == Seen(parts[..i])
    {
      context.Update(parts[i]);
      i := i + 1;
      assert parts[..i][..i - 1] == parts[..i - 1];
    }
    assert parts[..i] == parts;
    SeenIsAll(parts);
    context.Finish(out);
  }
}

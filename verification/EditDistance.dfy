/** Edit distance between strings of code points, computed in two rows of one buffer. */
module EditDistance {
  import opened CStrings
  import opened Utf8

  type Str = seq<int>

  // ----- what the distance is: the least number of single edits -----

  /** `t` is `s` with one element inserted at `i`. */
  ghost predicate Inserted(s: Str, t: Str, i: nat) {
    i <= |s| && |t| == |s| + 1 && s[..i] == t[..i] && s[i..] == t[i + 1..]
  }

  /** `t` is `s` with the element at `i` replaced. */
  ghost predicate Replaced(s: Str, t: Str, i: nat) {
    i < |s| == |t| && s[..i] == t[..i] && s[i + 1..] == t[i + 1..]
  }

  ghost predicate EditAt(s: Str, t: Str, i: nat) {
    Inserted(s, t, i) || Inserted(t, s, i) || Replaced(s, t, i)
  }

  ghost predicate OneEdit(s: Str, t: Str) {
    exists i :: EditAt(s, t, i)
  }

  /** `n` edits, anywhere and in any order, turn `a` into `b`. */
  ghost predicate Edits(a: Str, b: Str, n: nat)
    decreases n
  {
    if n == 0 then a == b else exists s :: OneEdit(a, s) && Edits(s, b, n - 1)
  }

  // ----- the recurrence over prefixes -----

  function Min3(x: int, y: int, z: int): (m: int) {
    var w := if x < y then x else y; if w < z then w else z
  }

  function Init(s: Str): Str requires s != [] { s[..|s| - 1] }

  function Last(s: Str): int requires s != [] { s[|s| - 1] }

  function Dist(a: Str, b: Str): (d: nat)
    decreases |a| + |b|
  {
    if a == [] then |b|
    else if b == [] then |a|
    else Min3(Dist(Init(a), b) + 1, Dist(a, Init(b)) + 1,
              Dist(Init(a), Init(b)) + if Last(a) != Last(b) then 1 else 0)
  }

  lemma {:induction false} DistSymmetric(a: Str, b: Str)
    ensures Dist(a, b) == Dist(b, a)
    decreases |a| + |b|
  {
    if a != [] && b != [] {
      DistSymmetric(Init(a), b);
      DistSymmetric(a, Init(b));
      DistSymmetric(Init(a), Init(b));
    }
  }

  // ----- the recurrence is never above the number of edits -----

  lemma {:induction false} DistOfLonger(a: Str, b: Str)
    requires a != []
    ensures Dist(Init(a), b) - 1 <= Dist(a, b) <= Dist(Init(a), b) + 1
    decreases |a| + |b|
  {
    if b != [] {
      DistOfLonger(a, Init(b));
      if |a| > 1 {
        DistShorter(Init(a), b);
      }
    }
  }

  lemma DistShorter(a: Str, b: Str)
    requires a != [] && b != []
    ensures Dist(a, b) <= Dist(a, Init(b)) + 1
  {
  }

  /** An edit that is not at the end leaves the last element alone. */
  lemma EditNotLast(s: Str, t: Str, i: nat)
    requires EditAt(s, t, i)
    requires !(Inserted(s, t, i) && i == |s|) && !(Inserted(t, s, i) && i == |t|)
    requires !(Replaced(s, t, i) && i == |s| - 1)
    ensures i < |s| && i < |t| && Last(s) == Last(t) && EditAt(Init(s), Init(t), i)
  {
    var s', t' := Init(s), Init(t);
    if Inserted(s, t, i) {
      assert s[i..][|s| - 1 - i] == t[i + 1..][|s| - 1 - i];
      assert s'[..i] == s[..i] && t'[..i] == t[..i] && s'[i..] == Init(s[i..]) && t'[i + 1..] == Init(t[i + 1..]);
    } else if Inserted(t, s, i) {
      assert t[i..][|t| - 1 - i] == s[i + 1..][|t| - 1 - i];
      assert s'[..i] == s[..i] && t'[..i] == t[..i] && t'[i..] == Init(t[i..]) && s'[i + 1..] == Init(s[i + 1..]);
    } else {
      assert s[i + 1..][|s| - 2 - i] == t[i + 1..][|s| - 2 - i];
      assert s'[..i] == s[..i] && t'[..i] == t[..i];
      assert s'[i + 1..] == Init(s[i + 1..]) && t'[i + 1..] == Init(t[i + 1..]);
    }
  }

  lemma {:induction false} EditMovesByOne(s: Str, t: Str, i: nat, b: Str)
    requires EditAt(s, t, i)
    ensures Dist(s, b) <= Dist(t, b) + 1
    decreases |s| + |t| + |b|
  {
    if b == [] {
    } else if Inserted(s, t, i) && i == |s| {
      assert Init(t) == s;
      DistOfLonger(t, b);
    } else if Inserted(t, s, i) && i == |t| {
      assert Init(s) == t;
      DistOfLonger(s, b);
    } else if Replaced(s, t, i) && i == |s| - 1 {
      assert Init(s) == Init(t);
      EditMovesByOne(s, t, i, Init(b));
    } else {
      EditNotLast(s, t, i);
      EditMovesByOne(Init(s), Init(t), i, b);
      EditMovesByOne(s, t, i, Init(b));
      EditMovesByOne(Init(s), Init(t), i, Init(b));
    }
  }

  lemma {:induction false} DistSelf(a: Str)
    ensures Dist(a, a) == 0
  {
    if a != [] {
      DistSelf(Init(a));
    }
  }

  lemma {:induction false} DistAtMostEdits(a: Str, b: Str, n: nat)
    requires Edits(a, b, n)
    ensures Dist(a, b) <= n
    decreases n
  {
    if n == 0 {
      DistSelf(a);
    } else {
      var s :| OneEdit(a, s) && Edits(s, b, n - 1);
      var i: nat :| EditAt(a, s, i);
      DistAtMostEdits(s, b, n - 1);
      EditMovesByOne(a, s, i, b);
    }
  }

  // ----- and it is reached -----

  lemma {:induction false} EditsThenEdit(a: Str, s: Str, b: Str, n: nat)
    requires Edits(a, s, n) && OneEdit(s, b)
    ensures Edits(a, b, n + 1)
    decreases n
  {
    if n == 0 {
      assert Edits(b, b, 0);
    } else {
      var t :| OneEdit(a, t) && Edits(t, s, n - 1);
      EditsThenEdit(t, s, b, n - 1);
    }
  }

  lemma EditExtends(s: Str, t: Str, c: int)
    requires OneEdit(s, t)
    ensures OneEdit(s + [c], t + [c])
  {
    var i: nat :| EditAt(s, t, i);
    var s', t' := s + [c], t + [c];
    if Inserted(s, t, i) {
      assert s'[i..] == s[i..] + [c] && t'[i + 1..] == t[i + 1..] + [c] && s'[..i] == s[..i] && t'[..i] == t[..i];
      assert EditAt(s', t', i);
    } else if Inserted(t, s, i) {
      assert t'[i..] == t[i..] + [c] && s'[i + 1..] == s[i + 1..] + [c] && s'[..i] == s[..i] && t'[..i] == t[..i];
      assert EditAt(s', t', i);
    } else {
      assert t'[i + 1..] == t[i + 1..] + [c] && s'[i + 1..] == s[i + 1..] + [c];
      assert s'[..i] == s[..i] && t'[..i] == t[..i];
      assert EditAt(s', t', i);
    }
  }

  lemma EditFirst(a: Str, s: Str, b: Str, n: nat)
    requires OneEdit(a, s) && Edits(s, b, n)
    ensures Edits(a, b, n + 1)
  {
  }

  lemma {:induction false} EditsExtend(a: Str, b: Str, n: nat, c: int)
    requires Edits(a, b, n)
    ensures Edits(a + [c], b + [c], n)
    decreases n
  {
    if n > 0 {
      var s :| OneEdit(a, s) && Edits(s, b, n - 1);
      EditExtends(a, s, c);
      EditsExtend(s, b, n - 1, c);
      EditFirst(a + [c], s + [c], b + [c], n - 1);
    }
  }

  lemma DropLast(a: Str, b: Str, n: nat)
    requires a != [] && Edits(Init(a), b, n)
    ensures Edits(a, b, n + 1)
  {
    assert EditAt(a, Init(a), |a| - 1);
    assert OneEdit(a, Init(a));
  }

  lemma AddLast(a: Str, b: Str, n: nat)
    requires b != [] && Edits(a, Init(b), n)
    ensures Edits(a, b, n + 1)
  {
    assert EditAt(Init(b), b, |b| - 1);
    EditsThenEdit(a, Init(b), b, n);
  }

  lemma KeepLast(a: Str, b: Str, n: nat)
    requires a != [] && b != [] && Edits(Init(a), Init(b), n)
    ensures Edits(a, b, n + if Last(a) != Last(b) then 1 else 0)
  {
    var b' := Init(b) + [Last(a)];
    assert a == Init(a) + [Last(a)] && b == Init(b) + [Last(b)];
    EditsExtend(Init(a), Init(b), n, Last(a));
    if Last(a) != Last(b) {
      assert EditAt(b', b, |b| - 1);
      EditsThenEdit(a, b', b, n);
    }
  }

  lemma {:induction false} DistReached(a: Str, b: Str)
    ensures Edits(a, b, Dist(a, b))
    decreases |a| + |b|
  {
    if a == [] && b == [] {
    } else if a != [] && Dist(a, b) == Dist(Init(a), b) + 1 {
      DistReached(Init(a), b);
      DropLast(a, b, Dist(Init(a), b));
    } else if b != [] && Dist(a, b) == Dist(a, Init(b)) + 1 {
      DistReached(a, Init(b));
      AddLast(a, b, Dist(a, Init(b)));
    } else {
      DistReached(Init(a), Init(b));
      KeepLast(a, b, Dist(Init(a), Init(b)));
    }
  }

  /** The recurrence is the least number of edits. */
  lemma DistIsLeast(a: Str, b: Str)
    ensures Edits(a, b, Dist(a, b))
    ensures forall n: nat :: Edits(a, b, n) ==> Dist(a, b) <= n
  {
    DistReached(a, b);
    forall n: nat | Edits(a, b, n) ensures Dist(a, b) <= n {
      DistAtMostEdits(a, b, n);
    }
  }

  // ----- two rows -----

  /** Where row `j` starts: the rows of even and of odd columns take turns. */
  function Row(off: nat, width: nat, j: nat): nat {
    if j % 2 == 0 then off else off + width
  }

  lemma DistStep(a: Str, b: Str, i: nat, j: nat)
    requires 1 <= i <= |a| && 1 <= j <= |b|
    ensures Dist(a[..i], b[..j]) ==
            Min3(Dist(a[..i - 1], b[..j]) + 1, Dist(a[..i], b[..j - 1]) + 1,
                 Dist(a[..i - 1], b[..j - 1]) + if a[i - 1] != b[j - 1] then 1 else 0)
  {
    assert Init(a[..i]) == a[..i - 1] && Init(b[..j]) == b[..j - 1];
  }

  /** The distances of the first `n` prefixes of `a` to `b` are laid out from `row` on. */
  ghost predicate IsRow(buf: array<int>, row: nat, a: Str, b: Str, n: nat)
    reads buf
  {
    n <= |a| + 1 && row + n <= buf.Length && forall k :: 0 <= k < n ==> buf[row + k] == Dist(a[..k], b)
  }

  method FillRow(a: Str, b: Str, buf: array<int>, off: nat, j: nat)
    requires 1 <= j <= |b| && off + 2 * (|a| + 1) <= buf.Length
    requires IsRow(buf, Row(off, |a| + 1, j - 1), a, b[..j - 1], |a| + 1)
    modifies buf
    ensures forall k :: 0 <= k < off ==> buf[k] == old(buf[k])
    ensures IsRow(buf, Row(off, |a| + 1, j), a, b[..j], |a| + 1)
  {
    var prev, cur := Row(off, |a| + 1, j - 1), Row(off, |a| + 1, j);
    buf[cur] := j;
    FillCells(a, b, buf, prev, cur, j);
  }

  /** The rest of row `cur`, whose first cell stands, from row `prev`, which lies apart. */
  method FillCells(a: Str, b: Str, buf: array<int>, prev: nat, cur: nat, j: nat)
    requires 1 <= j <= |b| && (prev + |a| < cur || cur + |a| < prev) && cur + |a| < buf.Length
    requires IsRow(buf, prev, a, b[..j - 1], |a| + 1) && IsRow(buf, cur, a, b[..j], 1)
    modifies buf
    ensures forall k :: 0 <= k < buf.Length && !(cur <= k <= cur + |a|) ==> buf[k] == old(buf[k])
    ensures IsRow(buf, cur, a, b[..j], |a| + 1)
  {
    var i := 1;
    while i <= |a|
      invariant 1 <= i <= |a| + 1
      invariant forall k :: 0 <= k < buf.Length && !(cur <= k <= cur + |a|) ==> buf[k] == old(buf[k])
      invariant IsRow(buf, prev, a, b[..j - 1], |a| + 1) && IsRow(buf, cur, a, b[..j], i)
    {
      FillCell(a, b, buf, prev, cur, i, j);
      i := i + 1;
    }
  }

  method FillCell(a: Str, b: Str, buf: array<int>, prev: nat, cur: nat, i: nat, j: nat)
    requires 1 <= i <= |a| && 1 <= j <= |b| && (prev + |a| < cur || cur + |a| < prev)
    requires IsRow(buf, prev, a, b[..j - 1], |a| + 1) && IsRow(buf, cur, a, b[..j], i) && cur + i < buf.Length
    modifies buf
    ensures forall k :: 0 <= k < buf.Length && k != cur + i ==> buf[k] == old(buf[k])
    ensures buf[cur + i] == Dist(a[..i], b[..j])
  {
    var subst := if a[i - 1] != b[j - 1] then 1 else 0;
    DistStep(a, b, i, j);
    buf[cur + i] := Min3(buf[cur + (i - 1)] + 1, buf[prev + i] + 1, buf[prev + (i - 1)] + subst);
  }

  method FirstRow(a: Str, none: Str, buf: array<int>, off: nat)
    requires none == [] && off + |a| + 1 <= buf.Length
    modifies buf
    ensures forall k :: 0 <= k < off ==> buf[k] == old(buf[k])
    ensures IsRow(buf, off, a, none, |a| + 1)
  {
    var i := 0;
    while i <= |a|
      invariant 0 <= i <= |a| + 1 && forall k :: 0 <= k < off ==> buf[k] == old(buf[k])
      invariant IsRow(buf, off, a, none, i)
    {
      buf[off + i] := i;
      i := i + 1;
    }
  }

  method FillRows(a: Str, b: Str, buf: array<int>, off: nat)
    requires off + 2 * (|a| + 1) <= buf.Length && IsRow(buf, off, a, b[..0], |a| + 1)
    modifies buf
    ensures forall k :: 0 <= k < off ==> buf[k] == old(buf[k])
    ensures IsRow(buf, Row(off, |a| + 1, |b|), a, b[..|b|], |a| + 1)
  {
    var j := 1;
    while j <= |b|
      invariant 1 <= j <= |b| + 1 && forall k :: 0 <= k < off ==> buf[k] == old(buf[k])
      invariant IsRow(buf, Row(off, |a| + 1, j - 1), a, b[..j - 1], |a| + 1)
    {
      FillRow(a, b, buf, off, j);
      j := j + 1;
    }
  }

  method DistBuffer(a0: Str, b0: Str, buf: array<int>, off: nat) returns (d: nat)
    requires off + |a0| + |b0| + 2 <= buf.Length
    modifies buf
    ensures d == Dist(a0, b0)
    ensures forall k :: 0 <= k < off ==> buf[k] == old(buf[k])
  {
    var a, b := a0, b0;
    if |a| > |b| {
      a, b := b0, a0;
    }
    DistSymmetric(a0, b0);
    FirstRow(a, b[..0], buf, off);
    FillRows(a, b, buf, off);
    assert a[..|a|] == a && b[..|b|] == b;
    d := buf[Row(off, |a| + 1, |b|) + |a|];
  }

  // ----- from UTF-8 -----

  /** One step of the conversion: `buf[..end]` followed by what is left to decode stays the same. */
  method StoreNext(m: seq<byte>, p: nat, buf: array<int>, end: nat) returns (code: int, next: nat)
    requires Terminated(m, p) && end + |CodePoints(m, p)| < buf.Length
    modifies buf
    ensures p < next && buf[..end] == old(buf[..end])
    ensures code == 0 ==> CodePoints(m, p) == []
    ensures code != 0 ==> next <= |m| && Terminated(m, next) && end < buf.Length
    ensures code != 0 ==> buf[..end + 1] + CodePoints(m, next) == old(buf[..end]) + CodePoints(m, p)
  {
    code, next := DecodeNext(m, p);
    buf[end] := code;
    if code != 0 {
      assert buf[..end + 1] == old(buf[..end]) + [code];
    }
  }

  /** `str_to_utf32_unchecked`: the code points of `m` and a zero behind them. */
  method ToUtf32(m: seq<byte>, buf: array<int>, at: nat) returns (end: nat)
    requires Terminated(m, 0) && at + |CodePoints(m, 0)| < buf.Length
    modifies buf
    ensures at <= end < buf.Length && buf[..end] == old(buf[..at]) + CodePoints(m, 0)
  {
    ghost var all := buf[..at] + CodePoints(m, 0);
    var p := 0;
    end := at;
    while true
      invariant Terminated(m, p) && at <= end < buf.Length && |all| < buf.Length
      invariant buf[..end] + CodePoints(m, p) == all
      decreases |m| - p
    {
      var code, next := StoreNext(m, p, buf, end);
      if code == 0 {
        break;
      }
      end := end + 1;
      p := next;
    }
  }

  method Utf8DistBuffer(a: seq<byte>, b: seq<byte>, buf: array<int>) returns (d: nat)
    requires Terminated(a, 0) && Terminated(b, 0)
    requires buf.Length >= 2 * (StrLen(a, 0) + 1 + StrLen(b, 0) + 1)
    modifies buf
    ensures d == Dist(CodePoints(a, 0), CodePoints(b, 0))
  {
    var x, y := a, b;
    if StrLen(a, 0) > StrLen(b, 0) {
      x, y := b, a;
    }
    ghost var s, t := CodePoints(x, 0), CodePoints(y, 0);
    var xEnd := ToUtf32(x, buf, 0);
    assert buf[..xEnd] == s;
    var yEnd := ToUtf32(y, buf, xEnd);
    var u, v := buf[..yEnd][..xEnd], buf[..yEnd][xEnd..];
    assert u == s && v == t;
    DistSymmetric(s, t);
    d := DistBuffer(u, v, buf, yEnd);
  }
}

/** The skip counts that let a traversal of a tile layer jump over empty tiles. */
module TileSkip {
  import Arith

  /** A tile; `skip` is an unsigned byte in the map format. */
  datatype Tile = Tile(index: int, flags: int, skip: int)

  const MAX_STEP := 255

  type Row = seq<Tile>

  // ----- what the loops compute -----

  /** The inner loop from a step of `n`: up to the next tile that is not empty, the end of the row or the limit. */
  function StepFrom(row: Row, x: nat, n: nat): (r: nat)
    requires x < |row| && 1 <= n <= MAX_STEP && x + n <= |row|
    ensures n <= r <= MAX_STEP && x + r <= |row|
    ensures forall k :: x + n <= k < x + r ==> row[k].index == 0
    ensures x + r < |row| && r < MAX_STEP ==> row[x + r].index != 0
    decreases |row| - x - n
  {
    if x + n < |row| && n < MAX_STEP && row[x + n].index == 0 then StepFrom(row, x, n + 1) else n
  }

  function Marked(row: Row, x: nat): (r: Row)
    requires x < |row|
    ensures |r| == |row|
  {
    row[x := row[x].(skip := StepFrom(row, x, 1) - 1)]
  }

  /** The row after the outer loop has gone through it from column `x`. */
  function RowAfter(row: Row, x: nat): (r: Row)
    ensures |r| == |row|
    decreases |row| - x
  {
    if x >= |row| then row else RowAfter(Marked(row, x), x + StepFrom(row, x, 1))
  }

  method FindStep(tiles: array<Tile>, base: nat, width: nat, x: nat) returns (step: nat)
    requires base + width <= tiles.Length && x < width
    ensures step == StepFrom(tiles[base..base + width], x, 1)
  {
    ghost var row := tiles[base..base + width];
    step := 1;
    while x + step < width && step < MAX_STEP
      invariant 1 <= step <= MAX_STEP && x + step <= width
      invariant StepFrom(row, x, step) == StepFrom(row, x, 1)
    {
      if tiles[base + x + step].index != 0 {
        break;
      }
      step := step + 1;
    }
  }

  method MarkTile(tiles: array<Tile>, base: nat, width: nat, x: nat) returns (step: nat)
    requires base + width <= tiles.Length && x < width
    modifies tiles
    ensures step == StepFrom(old(tiles[base..base + width]), x, 1)
    ensures tiles[base..base + width] == Marked(old(tiles[base..base + width]), x)
    ensures forall k :: 0 <= k < base || base + width <= k < tiles.Length ==> tiles[k] == old(tiles[k])
  {
    step := FindStep(tiles, base, width, x);
    tiles[base + x] := tiles[base + x].(skip := step - 1);
  }

  method MarkRow(tiles: array<Tile>, base: nat, width: nat)
    requires base + width <= tiles.Length
    modifies tiles
    ensures tiles[base..base + width] == RowAfter(old(tiles[base..base + width]), 1)
    ensures forall k :: 0 <= k < base || base + width <= k < tiles.Length ==> tiles[k] == old(tiles[k])
  {
    var x := 1;
    while x < width
      invariant 1 <= x
      invariant RowAfter(tiles[base..base + width], x) == RowAfter(old(tiles[base..base + width]), 1)
      invariant forall k :: 0 <= k < base || base + width <= k < tiles.Length ==> tiles[k] == old(tiles[k])
    {
      var step := MarkTile(tiles, base, width, x);
      x := x + step;
    }
  }

  lemma RowInside(y: nat, width: nat, height: nat)
    requires y < height
    ensures 0 <= y * width && y * width + width <= width * height
  {
    Arith.MulNonnegative(y, width);
    Arith.MulNonnegative(height - 1 - y, width);
    assert width * height == y * width + width + (height - 1 - y) * width;
  }

  lemma RowsApart(i: nat, j: nat, width: nat)
    requires i < j
    ensures i * width + width <= j * width
  {
    Arith.MulNonnegative(j - 1 - i, width);
    assert j * width == i * width + width + (j - 1 - i) * width;
  }

  ghost function RowOf(tiles: seq<Tile>, y: nat, width: nat, height: nat): Row
    requires |tiles| == width * height && y < height
  {
    RowInside(y, width, height);
    tiles[y * width..y * width + width]
  }

  lemma OtherRow(a: seq<Tile>, b: seq<Tile>, y: nat, j: nat, width: nat, height: nat)
    requires |a| == |b| == width * height && y < height && j < height && j != y
    requires forall k :: 0 <= k < |a| && !(y * width <= k < y * width + width) ==> a[k] == b[k]
    ensures RowOf(a, j, width, height) == RowOf(b, j, width, height)
  {
    RowInside(j, width, height);
    if j < y {
      RowsApart(j, y, width);
    } else {
      RowsApart(y, j, width);
    }
  }

  /** Row `y` of a layer. */
  method MarkRowOf(tiles: array<Tile>, y: nat, width: nat, height: nat)
    requires tiles.Length == width * height && y < height
    modifies tiles
    ensures RowOf(tiles[..], y, width, height) == RowAfter(RowOf(old(tiles[..]), y, width, height), 1)
    ensures forall j: nat :: j < height && j != y ==>
      RowOf(tiles[..], j, width, height) == RowOf(old(tiles[..]), j, width, height)
  {
    RowInside(y, width, height);
    ghost var was := tiles[..];
    assert was[y * width..y * width + width] == tiles[y * width..y * width + width];
    MarkRow(tiles, y * width, width);
    forall j: nat | j < height && j != y ensures RowOf(tiles[..], j, width, height) == RowOf(was, j, width, height) {
      OtherRow(tiles[..], was, y, j, width, height);
    }
    assert tiles[..][y * width..y * width + width] == tiles[y * width..y * width + width];
  }

  /** All rows of one tile layer. */
  method InitTilemapSkip(tiles: array<Tile>, width: nat, height: nat)
    requires tiles.Length == width * height
    modifies tiles
    ensures forall y: nat :: y < height ==>
      RowOf(tiles[..], y, width, height) == RowAfter(RowOf(old(tiles[..]), y, width, height), 1)
  {
    var y := 0;
    ghost var before := tiles[..];
    while y < height
      invariant 0 <= y <= height
      invariant forall j: nat :: j < y ==>
        RowOf(tiles[..], j, width, height) == RowAfter(RowOf(before, j, width, height), 1)
      invariant forall j: nat :: y <= j < height ==>
        RowOf(tiles[..], j, width, height) == RowOf(before, j, width, height)
    {
      MarkRowOf(tiles, y, width, height);
      y := y + 1;
    }
  }

  // ----- what the marks are good for -----

  /** From column `x` on every mark is right: it is a byte of at most 254, it leads over empty tiles only, and as
      far as it can, to a tile that is not empty, to the end, or to the limit. */
  predicate Good(row: Row, x: nat)
    decreases |row| - x
  {
    if x >= |row| then x == |row|
    else
      var next := x + row[x].skip + 1;
      && 0 <= row[x].skip <= 254 && next <= |row|
      && (forall k :: x < k < next ==> row[k].index == 0)
      && (next < |row| && row[x].skip < 254 ==> row[next].index != 0)
      && Good(row, next)
  }

  /** The columns a traversal visits. */
  function Walk(row: Row, x: nat): (xs: seq<nat>)
    requires Good(row, x)
    ensures forall i :: 0 <= i < |xs| ==> x <= xs[i] < |row|
    decreases |row| - x
  {
    if x >= |row| then [] else [x] + Walk(row, x + row[x].skip + 1)
  }

  /** All columns from `x` on. */
  function Scan(row: Row, x: nat): (xs: seq<nat>)
    ensures forall i :: 0 <= i < |xs| ==> x <= xs[i] < |row|
    decreases |row| - x
  {
    if x >= |row| then [] else [x] + Scan(row, x + 1)
  }

  /** Those among some columns that are not empty. */
  function Filled(row: Row, xs: seq<nat>): seq<nat>
    requires forall i :: 0 <= i < |xs| ==> xs[i] < |row|
  {
    if xs == [] then []
    else (if row[xs[0]].index != 0 then [xs[0]] else []) + Filled(row, xs[1..])
  }

  /** Only skips change, only from column `x` on. */
  lemma {:induction false} RowAfterKeeps(row: Row, x: nat)
    ensures var r := RowAfter(row, x);
            && (forall k :: 0 <= k < |row| ==> r[k].(skip := 0) == row[k].(skip := 0))
            && (forall k :: 0 <= k < x && k < |row| ==> r[k] == row[k])
    decreases |row| - x
  {
    if x < |row| {
      RowAfterKeeps(Marked(row, x), x + StepFrom(row, x, 1));
    }
  }

  /** After the loops the marks of a row are right. */
  lemma {:induction false} RowAfterIsGood(row: Row, x: nat)
    requires x <= |row|
    ensures Good(RowAfter(row, x), x)
    decreases |row| - x
  {
    if x < |row| {
      var step, m := StepFrom(row, x, 1), Marked(row, x);
      RowAfterIsGood(m, x + step);
      RowAfterKeeps(m, x + step);
      var r := RowAfter(m, x + step);
      assert r[x] == m[x];
      assert forall k :: 0 <= k < |row| ==> r[k].index == row[k].index;
    }
  }

  lemma {:induction false} ScanOverEmpty(row: Row, x: nat, next: nat)
    requires x <= next <= |row| && forall k :: x <= k < next ==> row[k].index == 0
    ensures Filled(row, Scan(row, x)) == Filled(row, Scan(row, next))
    decreases next - x
  {
    if x < next {
      assert Scan(row, x)[1..] == Scan(row, x + 1);
      ScanOverEmpty(row, x + 1, next);
    }
  }

  /** The fast traversal meets just the tiles that a full scan meets: every one that is not empty, once and in
      order. */
  lemma {:induction false} WalkMeetsAll(row: Row, x: nat)
    requires Good(row, x)
    ensures Filled(row, Walk(row, x)) == Filled(row, Scan(row, x))
    decreases |row| - x
  {
    if x < |row| {
      var next := x + row[x].skip + 1;
      assert Walk(row, x)[1..] == Walk(row, next);
      assert Scan(row, x)[1..] == Scan(row, x + 1);
      WalkMeetsAll(row, next);
      ScanOverEmpty(row, x + 1, next);
    }
  }

  lemma {:induction false} WalkAscends(row: Row, x: nat)
    requires Good(row, x)
    ensures forall i, j :: 0 <= i < j < |Walk(row, x)| ==> Walk(row, x)[i] < Walk(row, x)[j]
    decreases |row| - x
  {
    if x < |row| {
      WalkAscends(row, x + row[x].skip + 1);
    }
  }

  /** A column that a walk does not meet is empty. */
  lemma {:induction false} PassedIsEmpty(row: Row, x: nat, k: nat)
    requires Good(row, x) && x <= k < |row| && k !in Walk(row, x)
    ensures row[k].index == 0
    decreases |row| - x
  {
    var next := x + row[x].skip + 1;
    assert k != x by {
      assert Walk(row, x)[0] == x;
    }
    if next <= k {
      assert Walk(row, x) == [x] + Walk(row, next);
      PassedIsEmpty(row, next, k);
    }
  }

  /** A walk is short: apart from its first column it stops at an empty tile only every 255 columns. */
  lemma {:induction false} WalkIsShort(row: Row, x: nat)
    requires Good(row, x)
    ensures |Walk(row, x)| <= |Filled(row, Walk(row, x))| + (|row| - x) / 255
                              + if x < |row| && row[x].index == 0 then 1 else 0
    decreases |row| - x
  {
    if x < |row| {
      var next := x + row[x].skip + 1;
      assert Walk(row, x)[1..] == Walk(row, next);
      WalkIsShort(row, next);
    }
  }

  /** What a whole layer gains: in every row, from column 1 on, the traversal ends at the width, ascends, and meets
      what a scan meets; and column 0 is what it was. */
  lemma RowIsWalkable(row: Row)
    requires row != []
    ensures var r := RowAfter(row, 1);
            && Good(r, 1) && Filled(r, Walk(r, 1)) == Filled(row, Scan(row, 1))
            && (forall i, j :: 0 <= i < j < |Walk(r, 1)| ==> Walk(r, 1)[i] < Walk(r, 1)[j])
            && r[0] == row[0]
  {
    var r := RowAfter(row, 1);
    RowAfterIsGood(row, 1);
    RowAfterKeeps(row, 1);
    WalkMeetsAll(r, 1);
    WalkAscends(r, 1);
    assert forall k :: 0 <= k < |row| ==> r[k].index == row[k].index;
    SameFilled(r, row, 1);
  }

  lemma {:induction false} SameFilled(r: Row, row: Row, x: nat)
    requires |r| == |row| && forall k :: 0 <= k < |row| ==> r[k].index == row[k].index
    ensures Filled(r, Scan(r, x)) == Filled(row, Scan(row, x))
    decreases |row| - x
  {
    if x < |row| {
      SameFilled(r, row, x + 1);
      assert Scan(r, x)[1..] == Scan(r, x + 1) && Scan(row, x)[1..] == Scan(row, x + 1);
    }
  }
}

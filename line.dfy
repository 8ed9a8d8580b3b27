/**
 * One line of the 2048 board: a row (for left/right moves) or a column (for
 * up/down moves), already put in the order in which its tiles slide toward
 * index 0.
 *
 * The reference meaning of a slide is given by pure functions: `Tiles` drops
 * the empty cells, `Pairs` merges equal neighbours greedily from the front
 * (a tile made by a merge is never merged again), and `SlideLeft` pads the
 * result with zeros. `SlideLine` is the write-cursor loop of the game engine,
 * proved to compute exactly `SlideLeft`.
 */
module Line {

  /** The tiles (non-zero cells) of a line, in their original order. */
  function Tiles(s: seq<int>): (t: seq<int>)
    ensures |t| <= |s|
    ensures forall k :: 0 <= k < |t| ==> t[k] != 0
  {
    if s == [] then []
    else Tiles(s[..|s| - 1]) + (if s[|s| - 1] != 0 then [s[|s| - 1]] else [])
  }

  /**
   * Greedy merging of a tile sequence: the first two tiles merge when they are
   * equal and the merged tile takes no further part; otherwise the first tile
   * stays as it is.
   */
  function Pairs(t: seq<int>): (r: seq<int>)
    ensures |r| <= |t|
    ensures |t| > 0 ==> |r| > 0
  {
    if |t| < 2 then t
    else if t[0] == t[1] then [2 * t[0]] + Pairs(t[2..])
    else [t[0]] + Pairs(t[1..])
  }

  /** For each cell produced by `Pairs(t)`, whether it is the product of a merge. */
  function MergeFlags(t: seq<int>): (f: seq<bool>)
    ensures |f| == |Pairs(t)|
  {
    if |t| < 2 then seq(|t|, _ => false)
    else if t[0] == t[1] then [true] + MergeFlags(t[2..])
    else [false] + MergeFlags(t[1..])
  }

  function Zeros(n: nat): (z: seq<int>)
    ensures |z| == n && forall k :: 0 <= k < n ==> z[k] == 0
  {
    seq(n, _ => 0)
  }

  /** A line slid and merged toward index 0: merged tiles first, then empty cells. */
  function SlideLeft(s: seq<int>): (r: seq<int>)
    ensures |r| == |s|
  {
    var p := Pairs(Tiles(s));
    p + Zeros(|s| - |p|)
  }

  /** The merge mask of one line after a slide: true exactly at the merged cells. */
  function MergeMask(s: seq<int>): (m: seq<bool>)
    ensures |m| == |s|
  {
    var f := MergeFlags(Tiles(s));
    f + seq(|s| - |f|, _ => false)
  }

  /** The line reversed: its last cell first. */
  function Reverse(s: seq<int>): (r: seq<int>)
    ensures |r| == |s|
  {
    seq(|s|, k requires 0 <= k < |s| => s[|s| - 1 - k])
  }

  /** A line slid toward its last index: the mirror image of `SlideLeft`. */
  function SlideRight(s: seq<int>): (r: seq<int>)
    ensures |r| == |s|
  {
    Reverse(SlideLeft(Reverse(s)))
  }

  function Sum(s: seq<int>): (total: int)
  {
    if s == [] then 0 else s[0] + Sum(s[1..])
  }

  /** No tile stands after an empty cell. */
  predicate LeftPacked(r: seq<int>)
  {
    forall i, j :: 0 <= i < j < |r| && r[i] == 0 ==> r[j] == 0
  }

  /** Undoes the merges: every merged cell splits back into its two equal halves. */
  function Unmerge(p: seq<int>, f: seq<bool>): (t: seq<int>)
    requires |p| == |f|
  {
    if p == [] then []
    else (if f[0] then [p[0] / 2, p[0] / 2] else [p[0]]) + Unmerge(p[1..], f[1..])
  }

  /** The first source tile that went into output cell `i`. */
  function Lead(p: seq<int>, f: seq<bool>, i: nat): (x: int)
    requires |p| == |f| && i < |p|
  {
    if f[i] then p[i] / 2 else p[i]
  }

  // ---------------------------------------------------------------------------
  // The write-cursor loop

  /**
   * The compaction loop of one line: a write cursor `pos` starts at 0; each
   * tile either doubles the last written cell (when that cell holds the same
   * value and has not been merged yet) or is written at `pos`, which then
   * advances. Returns the new line and its merge mask.
   */
  method SlideLine(line: seq<int>) returns (newLine: seq<int>, merged: seq<bool>)
    ensures newLine == SlideLeft(line)
    ensures merged == MergeMask(line)
  {
    newLine := Zeros(|line|);
    merged := seq(|line|, _ => false);
    var pos := 0;
    ghost var t := [];
    for j := 0 to |line|
      invariant |newLine| == |line| && |merged| == |line|
      invariant t == Tiles(line[..j])
      invariant pos == |Pairs(t)| && pos <= j
      invariant newLine[..pos] == Pairs(t)
      invariant merged[..pos] == MergeFlags(t)
      invariant forall k :: pos <= k < |line| ==> newLine[k] == 0 && !merged[k]
    {
      TilesSnoc(line, j);
      if line[j] != 0 {
        newLine, merged, pos := Push(newLine, merged, pos, line[j], t);
        t := t + [line[j]];
      }
    }
    assert line[..|line|] == line;
    CursorDone(line, newLine, merged, pos);
  }

  /** When the loop has read the whole line, its output is the slid line and its mask. */
  lemma CursorDone(line: seq<int>, out: seq<int>, mask: seq<bool>, pos: nat)
    requires |out| == |line| && |mask| == |line| && pos <= |line|
    requires out[..pos] == Pairs(Tiles(line)) && mask[..pos] == MergeFlags(Tiles(line))
    requires forall k :: pos <= k < |line| ==> out[k] == 0 && !mask[k]
    ensures out == SlideLeft(line) && mask == MergeMask(line)
  {
    SlidDone(line, out, pos);
    MaskDone(line, mask, pos);
  }

  lemma SlidDone(line: seq<int>, out: seq<int>, pos: nat)
    requires |out| == |line| && pos <= |line| && out[..pos] == Pairs(Tiles(line))
    requires forall k :: pos <= k < |line| ==> out[k] == 0
    ensures out == SlideLeft(line)
  {
    var p := Pairs(Tiles(line));
    assert |p| == pos;
    PaddedWithZeros(out, p);
    assert SlideLeft(line) == p + Zeros(|line| - |p|);
  }

  lemma MaskDone(line: seq<int>, mask: seq<bool>, pos: nat)
    requires |mask| == |line| && pos <= |line| && mask[..pos] == MergeFlags(Tiles(line))
    requires forall k :: pos <= k < |line| ==> !mask[k]
    ensures mask == MergeMask(line)
  {
    var f := MergeFlags(Tiles(line));
    assert |f| == pos;
    PaddedWithFalse(mask, f);
    assert MergeMask(line) == f + seq(|line| - |f|, _ => false);
  }

  lemma PaddedWithZeros(out: seq<int>, p: seq<int>)
    requires |p| <= |out| && out[..|p|] == p
    requires forall k :: |p| <= k < |out| ==> out[k] == 0
    ensures out == p + Zeros(|out| - |p|)
  {
    forall k | 0 <= k < |out|
      ensures out[k] == (p + Zeros(|out| - |p|))[k]
    {
      if k < |p| {
        assert out[..|p|][k] == out[k];
      }
    }
  }

  lemma PaddedWithFalse(mask: seq<bool>, f: seq<bool>)
    requires |f| <= |mask| && mask[..|f|] == f
    requires forall k :: |f| <= k < |mask| ==> !mask[k]
    ensures mask == f + seq(|mask| - |f|, _ => false)
  {
    forall k | 0 <= k < |mask|
      ensures mask[k] == (f + seq(|mask| - |f|, _ => false))[k]
    {
      if k < |f| {
        assert mask[..|f|][k] == mask[k];
      }
    }
  }

  /**
   * One tile through the write cursor: it doubles the last written cell when
   * that cell holds the same value and has not been merged yet; otherwise it
   * is written at `pos`, which then advances.
   */
  method Push(out: seq<int>, mask: seq<bool>, pos: nat, x: int, ghost t: seq<int>)
    returns (newOut: seq<int>, newMask: seq<bool>, newPos: nat)
    requires pos < |out| == |mask|
    requires pos == |Pairs(t)| && out[..pos] == Pairs(t) && mask[..pos] == MergeFlags(t)
    requires forall k :: pos <= k < |out| ==> out[k] == 0 && !mask[k]
    ensures |newOut| == |out| && |newMask| == |mask| && newPos <= pos + 1
    ensures newPos == |Pairs(t + [x])|
    ensures newOut[..newPos] == Pairs(t + [x]) && newMask[..newPos] == MergeFlags(t + [x])
    ensures forall k :: newPos <= k < |out| ==> newOut[k] == 0 && !newMask[k]
  {
    if pos > 0 && out[pos - 1] == x && !mask[pos - 1] {
      AbsorbTile(out, mask, pos, t, x);
      newOut := out[pos - 1 := out[pos - 1] * 2];
      newMask := mask[pos - 1 := true];
      newPos := pos;
    } else {
      PlaceTile(out, mask, pos, t, x);
      newOut := out[pos := x];
      newMask := mask[pos := false];
      newPos := pos + 1;
    }
  }

  lemma TilesSnoc(s: seq<int>, j: nat)
    requires j < |s|
    ensures s[j] != 0 ==> Tiles(s[..j + 1]) == Tiles(s[..j]) + [s[j]]
    ensures s[j] == 0 ==> Tiles(s[..j + 1]) == Tiles(s[..j])
  {
    assert s[..j + 1][..j] == s[..j];
  }

  /** A merging step: the tile doubles the last written cell. */
  lemma AbsorbTile(out: seq<int>, mask: seq<bool>, pos: nat, t: seq<int>, x: int)
    requires pos <= |out| == |mask|
    requires out[..pos] == Pairs(t) && mask[..pos] == MergeFlags(t)
    requires 0 < pos && out[pos - 1] == x && !mask[pos - 1]
    ensures out[pos - 1 := out[pos - 1] * 2][..pos] == Pairs(t + [x])
    ensures mask[pos - 1 := true][..pos] == MergeFlags(t + [x])
  {
    assert out[..pos][pos - 1] == out[pos - 1];
    assert mask[..pos][pos - 1] == mask[pos - 1];
    assert Absorbs(t, x);
    PairsSnoc(t, x);
    assert out[pos - 1 := 2 * x][..pos] == out[..pos][..pos - 1] + [2 * x];
    assert mask[pos - 1 := true][..pos] == mask[..pos][..pos - 1] + [true];
  }

  /** A writing step: the tile goes to the cursor position. */
  lemma PlaceTile(out: seq<int>, mask: seq<bool>, pos: nat, t: seq<int>, x: int)
    requires pos < |out| == |mask|
    requires out[..pos] == Pairs(t) && mask[..pos] == MergeFlags(t)
    requires !(0 < pos && out[pos - 1] == x && !mask[pos - 1])
    ensures out[pos := x][..pos + 1] == Pairs(t + [x])
    ensures mask[pos := false][..pos + 1] == MergeFlags(t + [x])
  {
    if pos > 0 {
      assert out[..pos][pos - 1] == out[pos - 1];
      assert mask[..pos][pos - 1] == mask[pos - 1];
    }
    assert !Absorbs(t, x);
    PairsSnoc(t, x);
    assert out[pos := x][..pos + 1] == out[..pos] + [x];
    assert mask[pos := false][..pos + 1] == mask[..pos] + [false];
  }

  /** Whether a tile `x` appended to `t` merges into the last cell of `Pairs(t)`. */
  predicate Absorbs(t: seq<int>, x: int)
  {
    var p, f := Pairs(t), MergeFlags(t);
    |p| > 0 && p[|p| - 1] == x && !f[|f| - 1]
  }

  /**
   * Appending one tile to the sequence: it merges into the last output cell
   * exactly when that cell holds the same value and is not itself a merge.
   */
  lemma PairsSnoc(t: seq<int>, x: int)
    ensures var p, f := Pairs(t), MergeFlags(t);
      if Absorbs(t, x) then
        Pairs(t + [x]) == p[..|p| - 1] + [2 * x] && MergeFlags(t + [x]) == f[..|f| - 1] + [true]
      else
        Pairs(t + [x]) == p + [x] && MergeFlags(t + [x]) == f + [false]
  {
    PairsSnocValues(t, x);
    PairsSnocFlags(t, x);
  }

  /** `Pairs` of the sequence with `x` appended, as the loop computes it. */
  predicate SnocValues(t: seq<int>, x: int)
  {
    var p := Pairs(t);
    Pairs(t + [x]) == if Absorbs(t, x) then p[..|p| - 1] + [2 * x] else p + [x]
  }

  /** `MergeFlags` of the sequence with `x` appended, as the loop computes it. */
  predicate SnocFlags(t: seq<int>, x: int)
  {
    var f := MergeFlags(t);
    MergeFlags(t + [x]) == if Absorbs(t, x) then f[..|f| - 1] + [true] else f + [false]
  }

  lemma {:induction false} PairsSnocValues(t: seq<int>, x: int)
    ensures SnocValues(t, x)
    decreases |t|
  {
    var u := t + [x];
    if |t| == 0 {
      assert u == [x];
    } else if |t| == 1 {
      assert u == [t[0], x];
      assert u[2..] == [] && u[1..] == [x];
    } else {
      PairsSnocValues(Rest(t), x);
      SnocValuesStep(t, x);
    }
  }

  lemma {:induction false} PairsSnocFlags(t: seq<int>, x: int)
    ensures SnocFlags(t, x)
    decreases |t|
  {
    var u := t + [x];
    if |t| == 0 {
      assert u == [x];
    } else if |t| == 1 {
      assert u == [t[0], x];
      assert u[2..] == [] && u[1..] == [x];
    } else {
      PairsSnocFlags(Rest(t), x);
      SnocFlagsStep(t, x);
    }
  }

  lemma SnocValuesStep(t: seq<int>, x: int)
    requires |t| >= 2 && SnocValues(Rest(t), x)
    ensures SnocValues(t, x)
  {
    var r := Rest(t);
    RestSnoc(t, x);
    if r == [] {
      SnocValuesPair(t, x);
    } else {
      AbsorbsRest(t, x);
      ConsSnoc(Pairs(t)[0], Pairs(r), 2 * x, x, Absorbs(r, x));
    }
  }

  lemma SnocFlagsStep(t: seq<int>, x: int)
    requires |t| >= 2 && SnocFlags(Rest(t), x)
    ensures SnocFlags(t, x)
  {
    var r := Rest(t);
    RestSnoc(t, x);
    if r == [] {
      SnocFlagsPair(t, x);
    } else {
      AbsorbsRest(t, x);
      ConsSnoc(MergeFlags(t)[0], MergeFlags(r), true, false, Absorbs(r, x));
    }
  }

  /** A tile appended after a merged pair starts a new cell. */
  lemma SnocValuesPair(t: seq<int>, x: int)
    requires |t| == 2 && t[0] == t[1]
    ensures SnocValues(t, x)
  {
    assert MergeFlags(t) == [true];
    assert !Absorbs(t, x);
    SnocAfterMerge(t, x);
    assert t[2..] + [x] == [x];
  }

  lemma SnocFlagsPair(t: seq<int>, x: int)
    requires |t| == 2 && t[0] == t[1]
    ensures SnocFlags(t, x)
  {
    assert MergeFlags(t) == [true];
    assert !Absorbs(t, x);
    SnocAfterMerge(t, x);
    assert t[2..] + [x] == [x];
  }

  /** Putting a head cell in front commutes with the last-cell update of a snoc. */
  lemma ConsSnoc<T>(h: T, g: seq<T>, y: T, z: T, absorb: bool)
    requires |g| > 0
    ensures [h] + (if absorb then g[..|g| - 1] + [y] else g + [z]) ==
            (if absorb then ([h] + g)[..|g|] + [y] else [h] + g + [z])
  {
    if absorb {
      assert ([h] + g)[..|g|] == [h] + g[..|g| - 1];
    }
  }

  /** What `Pairs` leaves for its recursive call once the first output cell is made. */
  function Rest(t: seq<int>): (r: seq<int>)
    requires |t| >= 2
    ensures |r| < |t|
  {
    if t[0] == t[1] then t[2..] else t[1..]
  }

  lemma RestUnfold(t: seq<int>)
    requires |t| >= 2
    ensures Pairs(t) == [Pairs(t)[0]] + Pairs(Rest(t))
    ensures MergeFlags(t) == [MergeFlags(t)[0]] + MergeFlags(Rest(t))
  {
  }

  lemma RestSnoc(t: seq<int>, x: int)
    requires |t| >= 2
    ensures |t + [x]| >= 2 && (t + [x])[0] == t[0] && (t + [x])[1] == t[1]
    ensures Rest(t + [x]) == Rest(t) + [x]
    ensures Pairs(t) == [Pairs(t)[0]] + Pairs(Rest(t))
    ensures MergeFlags(t) == [MergeFlags(t)[0]] + MergeFlags(Rest(t))
    ensures Pairs(t + [x]) == [Pairs(t)[0]] + Pairs(Rest(t) + [x])
    ensures MergeFlags(t + [x]) == [MergeFlags(t)[0]] + MergeFlags(Rest(t) + [x])
  {
    RestUnfold(t);
    if t[0] == t[1] {
      SnocAfterMerge(t, x);
    } else {
      SnocAfterKeep(t, x);
    }
  }

  lemma SnocAfterMerge(t: seq<int>, x: int)
    requires |t| >= 2 && t[0] == t[1]
    ensures Rest(t + [x]) == t[2..] + [x]
    ensures Pairs(t + [x]) == [2 * t[0]] + Pairs(t[2..] + [x])
    ensures MergeFlags(t + [x]) == [true] + MergeFlags(t[2..] + [x])
  {
    var u := t + [x];
    assert u[0] == t[0] && u[1] == t[1];
    assert u[2..] == t[2..] + [x];
  }

  lemma SnocAfterKeep(t: seq<int>, x: int)
    requires |t| >= 2 && t[0] != t[1]
    ensures Rest(t + [x]) == t[1..] + [x]
    ensures Pairs(t + [x]) == [t[0]] + Pairs(t[1..] + [x])
    ensures MergeFlags(t + [x]) == [false] + MergeFlags(t[1..] + [x])
  {
    var u := t + [x];
    assert u[0] == t[0] && u[1] == t[1];
    assert u[1..] == t[1..] + [x];
  }

  lemma AbsorbsRest(t: seq<int>, x: int)
    requires |t| >= 2 && Rest(t) != []
    ensures Absorbs(t, x) == Absorbs(Rest(t), x)
  {
    RestSnoc(t, x);
    var p, q := Pairs(t), Pairs(Rest(t));
    var f, g := MergeFlags(t), MergeFlags(Rest(t));
    assert p[|p| - 1] == q[|q| - 1];
    assert f[|f| - 1] == g[|g| - 1];
  }

  // ---------------------------------------------------------------------------
  // Properties of one slide

  lemma {:induction false} SumConcat(a: seq<int>, b: seq<int>)
    ensures Sum(a + b) == Sum(a) + Sum(b)
  {
    if a == [] {
      assert a + b == b;
    } else {
      assert (a + b)[1..] == a[1..] + b;
      SumConcat(a[1..], b);
    }
  }

  lemma {:induction false} TilesSum(s: seq<int>)
    ensures Sum(Tiles(s)) == Sum(s)
  {
    if s != [] {
      var n := |s| - 1;
      assert s == s[..n] + [s[n]];
      SumConcat(s[..n], [s[n]]);
      TilesSum(s[..n]);
      SumConcat(Tiles(s[..n]), if s[n] != 0 then [s[n]] else []);
    }
  }

  lemma {:induction false} PairsSum(t: seq<int>)
    ensures Sum(Pairs(t)) == Sum(t)
    decreases |t|
  {
    if |t| >= 2 {
      if t[0] == t[1] {
        assert t[1..][1..] == t[2..];
        PairsSum(t[2..]);
      } else {
        PairsSum(t[1..]);
      }
    }
  }

  lemma {:induction false} ZerosSum(n: nat)
    ensures Sum(Zeros(n)) == 0
  {
    if n > 0 {
      assert Zeros(n)[1..] == Zeros(n - 1);
      ZerosSum(n - 1);
    }
  }

  /** A slide neither creates nor destroys value: a merge turns v + v into 2v. */
  lemma SlideLeftSum(s: seq<int>)
    ensures Sum(SlideLeft(s)) == Sum(s)
  {
    var p := Pairs(Tiles(s));
    SumConcat(p, Zeros(|s| - |p|));
    ZerosSum(|s| - |p|);
    PairsSum(Tiles(s));
    TilesSum(s);
  }

  /** After a slide toward index 0 the tiles come first and all empty cells follow. */
  lemma SlideLeftPacked(s: seq<int>)
    ensures LeftPacked(SlideLeft(s))
    ensures forall k :: 0 <= k < |SlideLeft(s)| ==> (SlideLeft(s)[k] != 0 <==> k < |Pairs(Tiles(s))|)
  {
    PairsNonZero(Tiles(s));
  }

  lemma {:induction false} PairsNonZero(t: seq<int>)
    requires forall k :: 0 <= k < |t| ==> t[k] != 0
    ensures forall k :: 0 <= k < |Pairs(t)| ==> Pairs(t)[k] != 0
    decreases |t|
  {
    if |t| >= 2 {
      if t[0] == t[1] {
        PairsNonZero(t[2..]);
      } else {
        PairsNonZero(t[1..]);
      }
    }
  }

  /**
   * No chain merges and no reordering: splitting every merged cell back into
   * its two equal halves gives the original tiles in their original order.
   */
  lemma {:induction false} UnmergeRecoversTiles(t: seq<int>)
    ensures Unmerge(Pairs(t), MergeFlags(t)) == t
    decreases |t|
  {
    if |t| == 1 {
      assert Pairs(t)[1..] == [];
    } else if |t| >= 2 {
      var p, f := Pairs(t), MergeFlags(t);
      if t[0] == t[1] {
        assert p[1..] == Pairs(t[2..]) && f[1..] == MergeFlags(t[2..]);
        UnmergeRecoversTiles(t[2..]);
        assert (2 * t[0]) / 2 == t[0];
        assert t == [t[0], t[0]] + t[2..];
      } else {
        assert p[1..] == Pairs(t[1..]) && f[1..] == MergeFlags(t[1..]);
        UnmergeRecoversTiles(t[1..]);
        assert t == [t[0]] + t[1..];
      }
    }
  }

  /**
   * Merging is greedy: a cell that did not merge was not followed by a tile of
   * the same value, so every merge the rule allows takes place.
   */
  lemma {:induction false} PairsGreedy(t: seq<int>)
    ensures var p, f := Pairs(t), MergeFlags(t);
      forall i :: 0 <= i < |p| - 1 && !f[i] ==> p[i] != Lead(p, f, i + 1)
    decreases |t|
  {
    var p, f := Pairs(t), MergeFlags(t);
    if |t| >= 2 {
      var rest := if t[0] == t[1] then t[2..] else t[1..];
      var p', f' := Pairs(rest), MergeFlags(rest);
      PairsGreedy(rest);
      assert p == [p[0]] + p' && f == [f[0]] + f';
      if !f[0] && |p| > 1 {
        assert t[0] != t[1] && rest == t[1..] && p[0] == t[0];
        LeadOfPairs(rest);
        assert Lead(p, f, 1) == Lead(p', f', 0);
      }
      forall i | 1 <= i < |p| - 1 && !f[i]
        ensures p[i] != Lead(p, f, i + 1)
      {
        assert p[i] == p'[i - 1] && f[i] == f'[i - 1];
        assert p[i + 1] == p'[i] && f[i + 1] == f'[i];
      }
    }
  }

  /** The first output cell starts with the first tile. */
  lemma LeadOfPairs(t: seq<int>)
    requires |t| > 0
    ensures Lead(Pairs(t), MergeFlags(t), 0) == t[0]
  {
    if |t| >= 2 && t[0] == t[1] {
      assert (2 * t[0]) / 2 == t[0];
    }
  }

  /** Merging shortens a tile sequence exactly when two of its neighbours are equal. */
  lemma {:induction false} PairsShrinks(t: seq<int>, j: nat)
    requires j + 1 < |t| && t[j] == t[j + 1]
    ensures |Pairs(t)| < |t|
    decreases |t|
  {
    if t[0] != t[1] {
      PairsShrinks(t[1..], j - 1);
    }
  }

  lemma {:induction false} PairsIdentity(t: seq<int>)
    requires forall j :: 0 <= j < |t| - 1 ==> t[j] != t[j + 1]
    ensures Pairs(t) == t
    decreases |t|
  {
    if |t| >= 2 {
      PairsIdentity(t[1..]);
      assert t == [t[0]] + t[1..];
    }
  }

  lemma {:induction false} PairsSameLength(t: seq<int>)
    requires |Pairs(t)| == |t|
    ensures Pairs(t) == t
  {
    forall j | 0 <= j < |t| - 1
      ensures t[j] != t[j + 1]
    {
      if t[j] == t[j + 1] {
        PairsShrinks(t, j);
      }
    }
    PairsIdentity(t);
  }

  lemma {:induction false} TilesOfFull(s: seq<int>)
    requires forall k :: 0 <= k < |s| ==> s[k] != 0
    ensures Tiles(s) == s
  {
    if s != [] {
      TilesOfFull(s[..|s| - 1]);
      assert s == s[..|s| - 1] + [s[|s| - 1]];
    }
  }

  lemma {:induction false} TilesOfHole(s: seq<int>, k: nat)
    requires k < |s| && s[k] == 0
    ensures |Tiles(s)| < |s|
  {
    var n := |s| - 1;
    if k < n {
      TilesOfHole(s[..n], k);
    }
  }

  lemma {:induction false} TilesOfTile(s: seq<int>, k: nat)
    requires k < |s| && s[k] != 0
    ensures |Tiles(s)| > 0
  {
    var n := |s| - 1;
    if k < n {
      TilesOfTile(s[..n], k);
    }
  }

  /**
   * A line is left unchanged by a slide toward index 0 when it has no empty
   * cell and no two equal neighbours.
   */
  lemma SlideLeftFixed(s: seq<int>)
    requires forall k :: 0 <= k < |s| ==> s[k] != 0
    requires forall k :: 0 <= k < |s| - 1 ==> s[k] != s[k + 1]
    ensures SlideLeft(s) == s
  {
    TilesOfFull(s);
    PairsIdentity(s);
  }

  /**
   * A slide that leaves no empty cell changed nothing: it could neither close
   * a gap nor merge a pair.
   */
  lemma SlideLeftFullIsFixed(s: seq<int>)
    requires forall k :: 0 <= k < |s| ==> SlideLeft(s)[k] != 0
    ensures SlideLeft(s) == s
  {
    var t := Tiles(s);
    var p := Pairs(t);
    assert |p| == |s| by {
      if s != [] {
        assert SlideLeft(s)[|s| - 1] != 0;
      }
    }
    TilesFullLength(s);
    TilesOfFull(s);
    PairsSameLength(t);
  }

  /** A line loses no cell to `Tiles` only when it has no empty cell. */
  lemma {:induction false} TilesFullLength(s: seq<int>)
    requires |Tiles(s)| == |s|
    ensures forall k :: 0 <= k < |s| ==> s[k] != 0
  {
    if s != [] {
      var n := |s| - 1;
      TilesFullLength(s[..n]);
      assert forall k :: 0 <= k < n ==> s[..n][k] == s[k];
    }
  }

  /** A full line with two equal neighbours frees its last cell when slid toward index 0. */
  lemma SlideLeftMergeFrees(s: seq<int>, j: nat)
    requires forall k :: 0 <= k < |s| ==> s[k] != 0
    requires j + 1 < |s| && s[j] == s[j + 1]
    ensures SlideLeft(s)[|s| - 1] == 0
    ensures SlideLeft(s) != s
  {
    TilesOfFull(s);
    PairsShrinks(s, j);
  }

  lemma ReverseReverse(s: seq<int>)
    ensures Reverse(Reverse(s)) == s
  {
  }

  /**
   * A line with an empty cell and a tile is changed by a slide in one of the
   * two directions along it.
   */
  lemma LineCanMove(s: seq<int>, hole: nat, tile: nat)
    requires hole < |s| && tile < |s| && s[hole] == 0 && s[tile] != 0
    ensures SlideLeft(s) != s || SlideRight(s) != s
  {
    var n := |s| - 1;
    TilesOfHole(s, hole);
    if s[n] != 0 {
      assert SlideLeft(s)[n] == 0;
    } else {
      var r := Reverse(s);
      assert r[n - tile] == s[tile];
      TilesOfTile(r, n - tile);
      assert SlideRight(s)[n] == SlideLeft(r)[0];
    }
  }

  // ---------------------------------------------------------------------------
  // Tile values

  /** A tile value: 2, 4, 8, and so on. */
  predicate Pow2(x: int)
    decreases x
  {
    x == 2 || (x > 2 && x % 2 == 0 && Pow2(x / 2))
  }

  /** Every cell of the line is empty or holds a power of two. */
  predicate LineOk(s: seq<int>)
  {
    forall k :: 0 <= k < |s| ==> s[k] == 0 || Pow2(s[k])
  }

  /** Every entry is a power of two. */
  predicate AllPow2(t: seq<int>)
  {
    forall k :: 0 <= k < |t| ==> Pow2(t[k])
  }

  /** Merging two equal powers of two gives a power of two. */
  lemma Pow2Double(x: int)
    requires Pow2(x)
    ensures Pow2(2 * x)
  {
    var y := x + x;
    assert x >= 2 && y > 2;
    assert y % 2 == 0 && y / 2 == x;
    assert y == 2 * x;
  }

  lemma {:induction false} TilesPow2(s: seq<int>)
    requires LineOk(s)
    ensures AllPow2(Tiles(s))
  {
    if s != [] {
      TilesPow2(s[..|s| - 1]);
    }
  }

  lemma {:induction false} PairsPow2(t: seq<int>)
    requires AllPow2(t)
    ensures AllPow2(Pairs(t))
    decreases |t|
  {
    if |t| >= 2 {
      if t[0] == t[1] {
        Pow2Double(t[0]);
        PairsPow2(t[2..]);
      } else {
        PairsPow2(t[1..]);
      }
    }
  }

  /** A slide keeps every cell empty or a power of two. */
  lemma SlideLeftOk(s: seq<int>)
    requires LineOk(s)
    ensures LineOk(SlideLeft(s))
  {
    TilesPow2(s);
    PairsPow2(Tiles(s));
  }

  /** A line holding a tile still holds one after a slide: its first cell. */
  lemma SlideLeftKeepsTile(s: seq<int>, k: nat)
    requires k < |s| && s[k] != 0
    ensures SlideLeft(s)[0] != 0
  {
    TilesOfTile(s, k);
    PairsNonZero(Tiles(s));
  }

  // ---------------------------------------------------------------------------
  // Worked examples

  /** Four equal tiles make two merges, not one chain: [2,2,2,2] becomes [4,4,0,0]. */
  lemma FourEqualTilesMergeTwice()
    ensures SlideLeft([2, 2, 2, 2]) == [4, 4, 0, 0]
  {
    TilesOfFull([2, 2, 2, 2]);
    assert [2, 2, 2, 2][2..] == [2, 2] && [2, 2][2..] == [];
    assert Pairs([2, 2, 2, 2]) == [4, 4];
  }

  /** A tile made by a merge does not merge again: [2,2,4,0] becomes [4,4,0,0], not [8,0,0,0]. */
  lemma MergedTileStaysMerged()
    ensures SlideLeft([2, 2, 4, 0]) == [4, 4, 0, 0]
  {
    var s := [2, 2, 4, 0];
    assert s[..3] == [2, 2, 4];
    TilesOfFull([2, 2, 4]);
    assert Tiles(s) == [2, 2, 4];
    assert [2, 2, 4][2..] == [4];
    assert Pairs([2, 2, 4]) == [4, 4];
  }

  /** Two equal tiles at the ends of a line merge at the end the line slides toward. */
  lemma EndsMerge(a: int)
    requires a != 0
    ensures SlideLeft([a, 0, 0, a]) == [2 * a, 0, 0, 0]
    ensures SlideRight([a, 0, 0, a]) == [0, 0, 0, 2 * a]
  {
    var s := [a, 0, 0, a];
    assert [a][..0] == [] && [a, 0][..1] == [a] && [a, 0, 0][..2] == [a, 0] && s[..3] == [a, 0, 0];
    assert Tiles([a]) == [a];
    assert Tiles([a, 0]) == [a];
    assert Tiles([a, 0, 0]) == [a];
    assert Tiles(s) == [a, a];
    assert [a, a][2..] == [];
    assert Pairs([a, a]) == [2 * a];
    assert SlideLeft(s) == [2 * a, 0, 0, 0];
    assert Reverse(s) == s;
  }
}

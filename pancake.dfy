/** pancake/pancake.c: two-dimensional pancake flips on a row-major
    width x height string, the one-flip neighbourhood, the argument checks,
    and the bidirectional breadth-first search from INITIAL and GOAL with its
    bounded meeting test and path reconstruction. */
module Pancake {
  import opened Common
  import opened PancakeList
  import opened PancakeHashtable
  import opened CircularQueue

  /** Bounds on HEIGHT and WIDTH, the least MAXLENGTH, and the number of hash
      chains. */
  const MINWH := 1
  const MAXWH := 16
  const MINLEN := 1
  const CHAINS := 100003

  // ---------------------------------------------------------------------
  // Integer facts used by the row/column arithmetic.

  lemma MulAtLeast(a: int, w: int)
    requires a >= 1 && w > 0
    ensures a * w >= w
  {
  }

  /** (r * w + c) splits back into row r and column c. */
  lemma RowCol(r: int, c: int, w: int)
    requires w > 0 && 0 <= c < w && r >= 0
    ensures (r * w + c) / w == r && (r * w + c) % w == c
  {
    var i := r * w + c;
    var q, m := i / w, i % w;
    assert i == q * w + m && 0 <= m < w;
    assert (r - q) * w == m - c;
    if r > q {
      MulAtLeast(r - q, w);
    } else if q > r {
      MulAtLeast(q - r, w);
    }
  }

  /** An index lies in the first fh rows exactly when its row is below fh. */
  lemma RowBound(i: int, w: int, fh: int)
    requires w > 0 && i >= 0 && fh >= 0
    ensures i < w * fh <==> i / w < fh
  {
    var r, c := i / w, i % w;
    assert i == r * w + c;
    if r < fh {
      MulAtLeast(fh - r, w);
      assert w * fh == r * w + (fh - r) * w;
    } else {
      assert w * fh == r * w - (r - fh) * w;
      if r > fh {
        MulAtLeast(r - fh, w);
      }
    }
  }

  lemma RowsWithin(w: int, fh: int, h: int)
    requires w > 0 && 0 <= fh <= h
    ensures w * fh <= w * h
  {
    if fh < h {
      MulAtLeast(h - fh, w);
      assert w * h == w * fh + (h - fh) * w;
    }
  }

  // ---------------------------------------------------------------------
  // flipPancake

  /** One flip: the top-left fh x fw block is mirrored left-right (vertical)
      or top-bottom (horizontal). */
  datatype FlipParams = FlipParams(fw: nat, fh: nat, vertical: bool)

  /** The dimensions and flip sizes flipPancake is called with. */
  predicate FlipFits(w: nat, h: nat, p: FlipParams) {
    1 <= p.fw <= w && 1 <= p.fh <= h
  }

  /** Where cell (r, c) of the fh x fw block lands: (r, fw-1-c) for a
      vertical flip, (fh-1-r, c) for a horizontal one; still in the block. */
  function BlockTarget(w: nat, fw: nat, fh: nat, v: bool, r: nat, c: nat): (j: nat)
    requires fw <= w && r < fh && c < fw
    ensures j < w * fh
    ensures j / w == (if v then r else fh - 1 - r)
    ensures j % w == (if v then fw - 1 - c else c)
  {
    var r', c' := if v then r else fh - 1 - r, if v then fw - 1 - c else c;
    RowCol(r', c', w);
    RowBound(r' * w + c', w, fh);
    r' * w + c'
  }

  /** The index flipPancake writes src[i] to. */
  function Dst(w: nat, h: nat, p: FlipParams, i: nat): (j: nat)
    requires FlipFits(w, h, p) && i < w * h
    ensures j < w * h
  {
    RowsWithin(w, p.fh, h);
    if i < w * p.fh && i % w < p.fw then
      RowBound(i, w, p.fh);
      BlockTarget(w, p.fw, p.fh, p.vertical, i / w, i % w)
    else i
  }

  /** Cell (r, c) of the block goes to (r, fw-1-c) under a vertical flip and
      to (fh-1-r, c) under a horizontal one; every other cell stays. */
  lemma DstCells(w: nat, h: nat, p: FlipParams, r: nat, c: nat)
    requires FlipFits(w, h, p) && r < h && c < w
    ensures r * w + c < w * h
    ensures r < p.fh && c < p.fw && p.vertical ==> Dst(w, h, p, r * w + c) == r * w + (p.fw - 1 - c)
    ensures r < p.fh && c < p.fw && !p.vertical ==> Dst(w, h, p, r * w + c) == (p.fh - 1 - r) * w + c
    ensures !(r < p.fh && c < p.fw) ==> Dst(w, h, p, r * w + c) == r * w + c
  {
    RowCol(r, c, w);
    RowBound(r * w + c, w, h);
    RowBound(r * w + c, w, p.fh);
  }

  /** Flipping twice moves every index back: Dst is an involution. */
  lemma {:induction false} DstInvolution(w: nat, h: nat, p: FlipParams, i: nat)
    requires FlipFits(w, h, p) && i < w * h
    ensures Dst(w, h, p, Dst(w, h, p, i)) == i
  {
    if i < w * p.fh && i % w < p.fw {
      DstInBlock(w, h, p, i);
      var j := Dst(w, h, p, i);
      DstInBlock(w, h, p, j);
      BlockTargetTwice(w, p.fw, p.fh, p.vertical, i);
    } else {
      assert Dst(w, h, p, i) == i;
    }
  }

  /** A cell of the block goes where BlockTarget sends it, and stays in the
      block. */
  lemma DstInBlock(w: nat, h: nat, p: FlipParams, i: nat)
    requires FlipFits(w, h, p) && i < w * p.fh && i % w < p.fw
    ensures i < w * h && 0 <= i / w < p.fh
    ensures Dst(w, h, p, i) == BlockTarget(w, p.fw, p.fh, p.vertical, i / w, i % w)
    ensures Dst(w, h, p, i) < w * p.fh && Dst(w, h, p, i) % w < p.fw
  {
    RowsWithin(w, p.fh, h);
    RowBound(i, w, p.fh);
  }

  /** Mirroring a cell of the block twice brings it back. */
  lemma BlockTargetTwice(w: nat, fw: nat, fh: nat, v: bool, i: nat)
    requires 0 < fw <= w && 0 <= i / w < fh && i % w < fw
    ensures var j := BlockTarget(w, fw, fh, v, i / w, i % w);
      BlockTarget(w, fw, fh, v, j / w, j % w) == i
  {
    var r, c := i / w, i % w;
    assert i == r * w + c;
    var j := BlockTarget(w, fw, fh, v, r, c);
    var k := BlockTarget(w, fw, fh, v, j / w, j % w);
    assert k / w == r && k % w == c;
    assert k == (k / w) * w + k % w;
  }

  /** The configuration one flip produces: new[Dst(i)] == src[i] for every i,
      so new[k] == src[Dst(k)] because Dst is an involution. */
  function Flipped(src: string, w: nat, h: nat, p: FlipParams): (r: string)
    requires |src| == w * h && FlipFits(w, h, p)
  {
    seq(|src|, k requires 0 <= k < |src| => src[Dst(w, h, p, k)])
  }

  /** flipPancake: a fresh w*h+1 buffer filled cell by cell from src, then NUL
      terminated; the configuration is the buffer before the NUL. */
  method FlipPancake(src: string, w: nat, h: nat, fw: nat, fh: nat, v: bool) returns (r: string)
    requires |src| == w * h && 1 <= fw <= w && 1 <= fh <= h
    ensures r == Flipped(src, w, h, FlipParams(fw, fh, v))
  {
    ghost var p := FlipParams(fw, fh, v);
    RowsWithin(w, fh, h);
    var buf := new char[w * h + 1];
    for i := 0 to w * fh
      invariant forall j :: 0 <= j < i ==> buf[Dst(w, h, p, j)] == src[j]
    {
      forall j | 0 <= j < i
        ensures Dst(w, h, p, j) != Dst(w, h, p, i)
      {
        DstInvolution(w, h, p, i);
        DstInvolution(w, h, p, j);
      }
      var row, col := i / w, i % w;
      if col < fw {
        var t;
        if v {
          t := row * w + fw - 1 - col;
        } else {
          t := (fh - 1 - row) * w + col;
        }
        assert t == Dst(w, h, p, i) by {
          RowBound(i, w, fh);
        }
        buf[t] := src[i];
      } else {
        buf[i] := src[i];
      }
    }
    for i := w * fh to w * h
      invariant forall j :: 0 <= j < i ==> buf[Dst(w, h, p, j)] == src[j]
    {
      forall j | 0 <= j < i
        ensures Dst(w, h, p, j) != i
      {
        DstInvolution(w, h, p, j);
      }
      buf[i] := src[i];
    }
    buf[w * h] := '\0';
    r := buf[..w * h];
    forall k | 0 <= k < w * h
      ensures r[k] == src[Dst(w, h, p, k)]
    {
      DstInvolution(w, h, p, k);
    }
  }

  /** Flipping the same block twice restores the configuration. */
  lemma FlipTwice(s: string, w: nat, h: nat, p: FlipParams)
    requires |s| == w * h && FlipFits(w, h, p)
    ensures Flipped(Flipped(s, w, h, p), w, h, p) == s
  {
    forall k | 0 <= k < |s|
      ensures Flipped(Flipped(s, w, h, p), w, h, p)[k] == s[k]
    {
      DstInvolution(w, h, p, k);
    }
  }

  /** A sequence that reads another through an injective index map on the
      same positions holds the same elements. */
  lemma {:induction false} PermByInjection<T>(s: seq<T>, t: seq<T>, f: int -> int)
    requires |s| == |t|
    requires forall i :: 0 <= i < |t| ==> 0 <= f(i) < |s| && t[i] == s[f(i)]
    requires forall i, j :: 0 <= i < j < |t| ==> f(i) != f(j)
    ensures multiset(t) == multiset(s)
  {
    var n := |t|;
    if n > 0 {
      var m := f(n - 1);
      var s' := s[..m] + s[m + 1..];
      var g := i => if f(i) < m then f(i) else f(i) - 1;
      assert multiset(t[..n - 1]) == multiset(s') by {
        forall i | 0 <= i < n - 1
          ensures 0 <= g(i) < |s'| && t[..n - 1][i] == s'[g(i)]
        {
          assert f(i) != m;
        }
        PermByInjection(s', t[..n - 1], g);
      }
      RemoveAt(s, m);
      assert t == t[..n - 1] + [t[n - 1]];
    }
  }

  /** Taking out the element at m takes one of it out of the multiset. */
  lemma RemoveAt<T>(s: seq<T>, m: nat)
    requires m < |s|
    ensures multiset(s) == multiset(s[..m] + s[m + 1..]) + multiset{s[m]}
  {
    assert s == s[..m] + [s[m]] + s[m + 1..];
  }

  /** A flip permutes the characters of the configuration. */
  lemma FlipPermutes(s: string, w: nat, h: nat, p: FlipParams)
    requires |s| == w * h && FlipFits(w, h, p)
    ensures multiset(Flipped(s, w, h, p)) == multiset(s)
  {
    var f := k => if 0 <= k < w * h then Dst(w, h, p, k) else 0;
    forall i, j | 0 <= i < j < w * h
      ensures f(i) != f(j)
    {
      DstInvolution(w, h, p, i);
      DstInvolution(w, h, p, j);
    }
    PermByInjection(s, Flipped(s, w, h, p), f);
  }

  // ---------------------------------------------------------------------
  // getBatch

  /** The flips made at step (i, j) of getBatch's double loop: the vertical
      (i+1) x (j+1) flip unless i == 0, then the horizontal one unless j == 0. */
  function StepParams(i: nat, j: nat): seq<FlipParams> {
    (if i != 0 then [FlipParams(i + 1, j + 1, true)] else [])
    + (if j != 0 then [FlipParams(i + 1, j + 1, false)] else [])
  }

  /** The flips made in column i before row j. */
  function ColumnParams(i: nat, j: nat): seq<FlipParams> {
    if j == 0 then [] else ColumnParams(i, j - 1) + StepParams(i, j - 1)
  }

  /** The flips made in the first i columns of a board of height h. */
  function ParamsBefore(h: nat, i: nat): seq<FlipParams> {
    if i == 0 then [] else ParamsBefore(h, i - 1) + ColumnParams(i - 1, h)
  }

  /** Every flip getBatch makes, in its order. */
  function BatchParams(w: nat, h: nat): seq<FlipParams> {
    ParamsBefore(h, w)
  }

  /** A flip that changes something: a vertical one at least two wide, a
      horizontal one at least two high. */
  predicate ProperFlip(w: nat, h: nat, p: FlipParams) {
    FlipFits(w, h, p) && (if p.vertical then p.fw >= 2 else p.fh >= 2)
  }

  lemma {:induction false} ColumnParamsHas(i: nat, j: nat, p: FlipParams)
    ensures p in ColumnParams(i, j) <==>
      p.fw == i + 1 && 1 <= p.fh <= j && (if p.vertical then i != 0 else p.fh >= 2)
  {
    if j > 0 {
      ColumnParamsHas(i, j - 1, p);
    }
  }

  lemma {:induction false} ParamsBeforeHas(h: nat, i: nat, p: FlipParams)
    ensures p in ParamsBefore(h, i) <==>
      1 <= p.fw <= i && 1 <= p.fh <= h && (if p.vertical then p.fw >= 2 else p.fh >= 2)
  {
    if i > 0 {
      ParamsBeforeHas(h, i - 1, p);
      ColumnParamsHas(i - 1, h, p);
    }
  }

  /** getBatch makes exactly the proper flips of a w x h board. */
  lemma BatchParamsComplete(w: nat, h: nat, p: FlipParams)
    ensures p in BatchParams(w, h) <==> ProperFlip(w, h, p)
  {
    ParamsBeforeHas(h, w, p);
  }

  lemma {:induction false} ColumnParamsCount(i: nat, j: nat)
    ensures |ColumnParams(i, j)| == if j == 0 then 0 else (if i != 0 then j else 0) + j - 1
  {
    if j > 0 {
      ColumnParamsCount(i, j - 1);
    }
  }

  lemma {:induction false} ParamsBeforeCount(h: nat, i: nat)
    requires h >= 1
    ensures |ParamsBefore(h, i)| == if i == 0 then 0 else (i - 1) * h + i * (h - 1)
  {
    if i > 0 {
      ParamsBeforeCount(h, i - 1);
      ColumnParamsCount(i - 1, h);
      if i > 1 {
        assert (i - 1) * h + i * (h - 1) == ((i - 2) * h + (i - 1) * (h - 1)) + h + h - 1;
      }
    }
  }

  /** The number of one-flip neighbours main computes as nStep. */
  function StepCount(w: int, h: int): int {
    2 * (w - 1) * (h - 1) + (w - 1) + (h - 1)
  }

  /** getBatch returns 2(w-1)(h-1) + (w-1) + (h-1) configurations. */
  lemma BatchParamsCount(w: nat, h: nat)
    requires w >= 1 && h >= 1
    ensures |BatchParams(w, h)| == StepCount(w, h)
  {
    ParamsBeforeCount(h, w);
    assert (w - 1) * h + w * (h - 1) == 2 * (w - 1) * (h - 1) + (w - 1) + (h - 1);
  }

  /** config under the flip p, or config itself for a flip that does not fit. */
  function Apply(config: string, w: nat, h: nat, p: FlipParams): string {
    if |config| == w * h && FlipFits(w, h, p) then Flipped(config, w, h, p) else config
  }

  /** config under each flip of ps, in order. */
  function Images(config: string, w: nat, h: nat, ps: seq<FlipParams>): (r: seq<string>)
    ensures |r| == |ps|
  {
    if ps == [] then []
    else Images(config, w, h, ps[..|ps| - 1]) + [Apply(config, w, h, ps[|ps| - 1])]
  }

  /** The m-th image is config under the m-th flip. */
  lemma {:induction false} ImagesAt(config: string, w: nat, h: nat, ps: seq<FlipParams>, m: nat)
    requires m < |ps|
    ensures Images(config, w, h, ps)[m] == Apply(config, w, h, ps[m])
  {
    if m < |ps| - 1 {
      ImagesAt(config, w, h, ps[..|ps| - 1], m);
    }
  }

  lemma BatchParamsProper(w: nat, h: nat)
    ensures forall m :: 0 <= m < |BatchParams(w, h)| ==> ProperFlip(w, h, BatchParams(w, h)[m])
  {
    forall m | 0 <= m < |BatchParams(w, h)|
      ensures ProperFlip(w, h, BatchParams(w, h)[m])
    {
      BatchParamsComplete(w, h, BatchParams(w, h)[m]);
    }
  }

  /** The configurations in a batch: config under each flip getBatch makes,
      in its order. */
  function Neighbours(config: string, w: nat, h: nat): (ns: seq<string>)
  {
    Images(config, w, h, BatchParams(w, h))
  }

  /** b is one proper flip away from a. */
  ghost predicate OneFlip(a: string, b: string, w: nat, h: nat) {
    |a| == w * h && exists p :: ProperFlip(w, h, p) && b == Flipped(a, w, h, p)
  }

  /** A flip keeps the length and the characters of a configuration. */
  lemma OneFlipPermutes(a: string, b: string, w: nat, h: nat)
    requires OneFlip(a, b, w, h)
    ensures |b| == |a| && multiset(b) == multiset(a)
  {
    var p :| ProperFlip(w, h, p) && b == Flipped(a, w, h, p);
    FlipPermutes(a, w, h, p);
  }

  /** The one-flip relation is symmetric: a flip undoes itself. */
  lemma OneFlipSymmetric(a: string, b: string, w: nat, h: nat)
    requires OneFlip(a, b, w, h)
    ensures OneFlip(b, a, w, h)
  {
    var p :| ProperFlip(w, h, p) && b == Flipped(a, w, h, p);
    FlipTwice(a, w, h, p);
  }

  /** Every member of a batch is one flip away, and every configuration one
      flip away is in the batch. */
  lemma NeighboursAreOneFlip(config: string, w: nat, h: nat, b: string)
    requires |config| == w * h
    ensures b in Neighbours(config, w, h) <==> OneFlip(config, b, w, h)
  {
    var ps := BatchParams(w, h);
    var ns := Neighbours(config, w, h);
    BatchParamsProper(w, h);
    if b in ns {
      var k :| 0 <= k < |ns| && ns[k] == b;
      BatchParamsComplete(w, h, ps[k]);
      ImagesAt(config, w, h, ps, k);
    }
    if OneFlip(config, b, w, h) {
      var p :| ProperFlip(w, h, p) && b == Flipped(config, w, h, p);
      BatchParamsComplete(w, h, p);
      var k :| 0 <= k < |ps| && ps[k] == p;
      ImagesAt(config, w, h, ps, k);
      assert ns[k] == b;
    }
  }

  lemma {:induction false} ParamsBeforeGrows(h: nat, i: nat, i': nat)
    requires i <= i'
    ensures |ParamsBefore(h, i)| <= |ParamsBefore(h, i')|
    decreases i' - i
  {
    if i < i' {
      ParamsBeforeGrows(h, i, i' - 1);
    }
  }

  lemma {:induction false} ColumnParamsGrows(i: nat, j: nat, j': nat)
    requires j <= j'
    ensures |ColumnParams(i, j)| <= |ColumnParams(i, j')|
    decreases j' - j
  {
    if j < j' {
      ColumnParamsGrows(i, j, j' - 1);
    }
  }

  /** The flips getBatch has made before step (i, j) of its double loop. */
  function Made(h: nat, i: nat, j: nat): seq<FlipParams> {
    ParamsBefore(h, i) + ColumnParams(i, j)
  }

  lemma MadeStep(h: nat, i: nat, j: nat)
    ensures Made(h, i, j + 1) == Made(h, i, j) + StepParams(i, j)
  {
    assert ColumnParams(i, j + 1) == ColumnParams(i, j) + StepParams(i, j);
  }

  lemma MadeNextColumn(h: nat, i: nat)
    ensures Made(h, i, h) == Made(h, i + 1, 0)
  {
    assert ParamsBefore(h, i + 1) == ParamsBefore(h, i) + ColumnParams(i, h);
  }

  /** The images of two runs of flips, one after the other. */
  lemma {:induction false} ImagesAppend(config: string, w: nat, h: nat, ps: seq<FlipParams>, qs: seq<FlipParams>)
    ensures Images(config, w, h, ps + qs) == Images(config, w, h, ps) + Images(config, w, h, qs)
    decreases |qs|
  {
    if qs != [] {
      var qs' := qs[..|qs| - 1];
      assert (ps + qs)[..|ps + qs| - 1] == ps + qs';
      assert (ps + qs)[|ps + qs| - 1] == qs[|qs| - 1];
      ImagesAppend(config, w, h, ps, qs');
      var last := [Apply(config, w, h, qs[|qs| - 1])];
      assert Images(config, w, h, ps + qs) == Images(config, w, h, ps + qs') + last;
      assert Images(config, w, h, qs) == Images(config, w, h, qs') + last;
    } else {
      assert ps + qs == ps;
    }
  }

  /** The images of one (i, j) step of getBatch: the vertical flip when
      i != 0, then the horizontal one when j != 0. */
  lemma StepImages(config: string, w: nat, h: nat, i: nat, j: nat)
    requires |config| == w * h && i < w && j < h
    ensures Images(config, w, h, StepParams(i, j))
         == (if i != 0 then [Flipped(config, w, h, FlipParams(i + 1, j + 1, true))] else [])
          + (if j != 0 then [Flipped(config, w, h, FlipParams(i + 1, j + 1, false))] else [])
  {
    var v, o := FlipParams(i + 1, j + 1, true), FlipParams(i + 1, j + 1, false);
    if i != 0 && j != 0 {
      assert StepParams(i, j) == [v, o];
      assert [v, o][..1] == [v];
    } else if i != 0 {
      assert StepParams(i, j) == [v];
    } else if j != 0 {
      assert StepParams(i, j) == [o];
    }
  }

  /** The body of getBatch's inner loop: writes the images of step (i, j)
      at position k and returns the next free position. */
  method FillStep(config: string, w: nat, h: nat, i: nat, j: nat, batch: array<string>, k: nat) returns (k': nat)
    requires |config| == w * h && i < w && j < h
    requires k + |StepParams(i, j)| <= batch.Length
    modifies batch
    ensures k' == k + |StepParams(i, j)|
    ensures batch[..k'] == old(batch[..k]) + Images(config, w, h, StepParams(i, j))
  {
    StepImages(config, w, h, i, j);
    k' := k;
    if i != 0 {
      var f := FlipPancake(config, w, h, i + 1, j + 1, true);
      batch[k'] := f;
      k' := k' + 1;
    }
    if j != 0 {
      var f := FlipPancake(config, w, h, i + 1, j + 1, false);
      batch[k'] := f;
      k' := k' + 1;
    }
  }

  /** The inner loop of getBatch: the images of every step of column i. */
  method FillColumn(config: string, w: nat, h: nat, i: nat, batch: array<string>, k: nat) returns (k': nat)
    requires |config| == w * h && i < w
    requires k == |Made(h, i, 0)| && |ParamsBefore(h, i + 1)| <= batch.Length
    requires batch[..k] == Images(config, w, h, Made(h, i, 0))
    modifies batch
    ensures k' == |Made(h, i + 1, 0)|
    ensures batch[..k'] == Images(config, w, h, Made(h, i + 1, 0))
  {
    k' := k;
    for j := 0 to h
      invariant k' == |Made(h, i, j)| <= |ParamsBefore(h, i + 1)|
      invariant batch[..k'] == Images(config, w, h, Made(h, i, j))
    {
      ColumnParamsGrows(i, j + 1, h);
      MadeStep(h, i, j);
      ImagesAppend(config, w, h, Made(h, i, j), StepParams(i, j));
      k' := FillStep(config, w, h, i, j, batch, k');
    }
    MadeNextColumn(h, i);
  }

  /** getBatch: a fresh array of nStep configurations, filled by the double
      loop over flip widths and heights. */
  method GetBatch(config: string, w: nat, h: nat) returns (batch: array<string>)
    requires |config| == w * h && w >= 1 && h >= 1
    ensures fresh(batch)
    ensures batch.Length == StepCount(w, h)
    ensures batch[..] == Neighbours(config, w, h)
  {
    BatchParamsCount(w, h);
    batch := new string[StepCount(w, h)];
    var k := 0;
    for i := 0 to w
      invariant k == |Made(h, i, 0)| <= batch.Length
      invariant batch[..k] == Images(config, w, h, Made(h, i, 0))
    {
      ParamsBeforeGrows(h, i + 1, w);
      k := FillColumn(config, w, h, i, batch, k);
    }
    assert Made(h, w, 0) == BatchParams(w, h);
    assert batch[..] == batch[..k];
  }
}

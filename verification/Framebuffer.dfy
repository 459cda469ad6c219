/** The copy of one rectangle of the screen onto another, in place (drivers/video/fbdev/boot_fb.c). The
    rectangles may overlap; the order of the copy depends on where the destination lies. */
module Framebuffer {
  type Pixel = bv32

  /** `struct fb_copyarea` */
  datatype Region = Region(dx: nat, dy: nat, width: nat, height: nat, sx: nat, sy: nat)

  /** The index of a pixel: row `y`, column `x`. */
  function At(stride: nat, y: nat, x: nat): nat { y * stride + x }

  lemma AtIsOrdered(stride: nat, y: nat, x: nat, y': nat, x': nat)
    requires x < stride && x' < stride && y < y'
    ensures At(stride, y, x) < At(stride, y', x')
  {
    assert y' * stride >= (y + 1) * stride == y * stride + stride;
  }

  lemma AtIsInjective(stride: nat, y: nat, x: nat, y': nat, x': nat)
    requires x < stride && x' < stride && At(stride, y, x) == At(stride, y', x')
    ensures y == y' && x == x'
  {
    if y < y' {
      AtIsOrdered(stride, y, x, y', x');
    } else if y' < y {
      AtIsOrdered(stride, y', x', y, x);
    }
  }

  lemma AtInside(stride: nat, y: nat, x: nat, rows: nat)
    requires x < stride && y < rows
    ensures At(stride, y, x) < rows * stride
  {
    AtIsOrdered(stride, y, x, rows, 0);
  }

  /** Both rectangles lie on the screen, and no index or counter leaves an `int`. */
  ghost predicate Fits(length: nat, stride: nat, r: Region) {
    && r.dx + r.width <= stride && r.sx + r.width <= stride
    && (r.dy + r.height) * stride <= length && (r.sy + r.height) * stride <= length
    && length < 0x8000_0000 && 0 < stride < 0x8000_0000 && r.height < 0x8000_0000
  }

  lemma FitsInside(length: nat, stride: nat, r: Region, j: nat, i: nat)
    requires Fits(length, stride, r) && j < r.height && i < r.width
    ensures At(stride, r.dy + j, r.dx + i) < length && At(stride, r.sy + j, r.sx + i) < length
  {
    AtInside(stride, r.dy + j, r.dx + i, r.dy + r.height);
    AtInside(stride, r.sy + j, r.sx + i, r.sy + r.height);
  }

  /** Pixel (`y`, `x`) once columns `lo` to `hi` of row `j` of the rectangle are copied. */
  ghost function RowPixel(was: seq<Pixel>, stride: nat, r: Region, j: nat, lo: nat, hi: nat, y: nat, x: nat): Pixel
    requires Fits(|was|, stride, r) && j < r.height && lo <= hi <= r.width
    requires x < stride && At(stride, y, x) < |was|
  {
    if y == r.dy + j && r.dx + lo <= x < r.dx + hi then
      FitsInside(|was|, stride, r, j, x - r.dx); was[At(stride, r.sy + j, r.sx + (x - r.dx))]
    else was[At(stride, y, x)]
  }

  ghost predicate RowCopied(was: seq<Pixel>, now: seq<Pixel>, stride: nat, r: Region, j: nat, lo: nat, hi: nat)
    requires Fits(|was|, stride, r) && j < r.height && lo <= hi <= r.width
  {
    |now| == |was| && forall y: nat, x: nat :: x < stride && At(stride, y, x) < |was| ==>
      now[At(stride, y, x)] == RowPixel(was, stride, r, j, lo, hi, y, x)
  }

  /** One more pixel at the right or the left end, provided the source pixel is still what it was. */
  lemma RowGrows(was: seq<Pixel>, now: seq<Pixel>, stride: nat, r: Region, j: nat, lo: nat, hi: nat, i: nat,
                 lo': nat, hi': nat)
    requires Fits(|was|, stride, r) && j < r.height && lo <= hi <= r.width && RowCopied(was, now, stride, r, j, lo, hi)
    requires (i == hi < r.width && lo' == lo && hi' == hi + 1) || (i + 1 == lo && lo' == i && hi' == hi)
    requires r.dy != r.sy || !(r.dx + lo <= r.sx + i < r.dx + hi)
    ensures At(stride, r.dy + j, r.dx + i) < |was| && At(stride, r.sy + j, r.sx + i) < |was|
    ensures RowCopied(was, now[At(stride, r.dy + j, r.dx + i) := now[At(stride, r.sy + j, r.sx + i)]],
                      stride, r, j, lo', hi')
  {
    hide At;
    hide Fits;
    FitsInside(|was|, stride, r, j, i);
    FitsIn(|was|, stride, r, i);
    var d, s := At(stride, r.dy + j, r.dx + i), At(stride, r.sy + j, r.sx + i);
    var next := now[d := now[s]];
    assert now[s] == was[s];
    forall y: nat, x: nat | x < stride && At(stride, y, x) < |was|
      ensures next[At(stride, y, x)] == RowPixel(was, stride, r, j, lo', hi', y, x)
    {
      if At(stride, y, x) == d {
        AtIsInjective(stride, y, x, r.dy + j, r.dx + i);
      }
    }
  }

  lemma FitsIn(length: nat, stride: nat, r: Region, i: nat)
    requires Fits(length, stride, r) && i < r.width
    ensures r.dx + i < stride && r.sx + i < stride
  {
  }

  /** A row from left to right: right where the source does not lie to the left in the same row. */
  method CopyRowForward(frame: array<Pixel>, stride: nat, r: Region, j: nat)
    requires Fits(frame.Length, stride, r) && j < r.height && (r.dy != r.sy || r.dx <= r.sx)
    modifies frame
    ensures RowCopied(old(frame[..]), frame[..], stride, r, j, 0, r.width)
  {
    hide At;
    hide Fits;
    ghost var was := frame[..];
    for i := 0 to r.width
      invariant RowCopied(was, frame[..], stride, r, j, 0, i)
    {
      RowGrows(was, frame[..], stride, r, j, 0, i, i, 0, i + 1);
      frame[At(stride, r.dy + j, r.dx + i)] := frame[At(stride, r.sy + j, r.sx + i)];
    }
  }

  method CopyRowBackward(frame: array<Pixel>, stride: nat, r: Region, j: nat)
    requires Fits(frame.Length, stride, r) && j < r.height && (r.dy != r.sy || r.dx >= r.sx)
    modifies frame
    ensures RowCopied(old(frame[..]), frame[..], stride, r, j, 0, r.width)
  {
    hide At;
    hide Fits;
    ghost var was := frame[..];
    for i := r.width downto 0
      invariant RowCopied(was, frame[..], stride, r, j, i, r.width)
    {
      RowGrows(was, frame[..], stride, r, j, i + 1, r.width, i, i, r.width);
      frame[At(stride, r.dy + j, r.dx + i)] := frame[At(stride, r.sy + j, r.sx + i)];
    }
  }

  /** Pixel (`y`, `x`) once rows `lo` to `hi` of the rectangle are copied. */
  ghost function AreaPixel(was: seq<Pixel>, stride: nat, r: Region, lo: nat, hi: nat, y: nat, x: nat): Pixel
    requires Fits(|was|, stride, r) && lo <= hi <= r.height
    requires x < stride && At(stride, y, x) < |was|
  {
    if r.dy + lo <= y < r.dy + hi && r.dx <= x < r.dx + r.width then
      FitsInside(|was|, stride, r, y - r.dy, x - r.dx); was[At(stride, r.sy + (y - r.dy), r.sx + (x - r.dx))]
    else was[At(stride, y, x)]
  }

  ghost predicate AreaCopied(was: seq<Pixel>, now: seq<Pixel>, stride: nat, r: Region, lo: nat, hi: nat)
    requires Fits(|was|, stride, r) && lo <= hi <= r.height
  {
    |now| == |was| && forall y: nat, x: nat :: x < stride && At(stride, y, x) < |was| ==>
      now[At(stride, y, x)] == AreaPixel(was, stride, r, lo, hi, y, x)
  }

  /** One more row at the lower or the upper end, provided its source row is still what it was. */
  lemma AreaGrows(was: seq<Pixel>, mid: seq<Pixel>, now: seq<Pixel>, stride: nat, r: Region,
                  lo: nat, hi: nat, j: nat, lo': nat, hi': nat)
    requires Fits(|was|, stride, r) && j < r.height && lo <= hi <= r.height && AreaCopied(was, mid, stride, r, lo, hi)
    requires RowCopied(mid, now, stride, r, j, 0, r.width)
    requires (j == hi && lo' == lo && hi' == hi + 1) || (j + 1 == lo && lo' == j && hi' == hi)
    requires !(r.dy + lo <= r.sy + j < r.dy + hi)
    ensures AreaCopied(was, now, stride, r, lo', hi')
  {
    hide At;
    hide Fits;
    forall y: nat, x: nat | x < stride && At(stride, y, x) < |was|
      ensures now[At(stride, y, x)] == AreaPixel(was, stride, r, lo', hi', y, x)
    {
      if y == r.dy + j && r.dx <= x < r.dx + r.width {
        FitsInside(|was|, stride, r, j, x - r.dx);
        FitsIn(|was|, stride, r, x - r.dx);
      }
    }
  }

  /** `boot_fb_copyarea` */
  method CopyArea(frame: array<Pixel>, stride: nat, r: Region)
    requires Fits(frame.Length, stride, r)
    modifies frame
    ensures AreaCopied(old(frame[..]), frame[..], stride, r, 0, r.height)
  {
    hide At;
    hide Fits;
    hide RowCopied;
    ghost var was := frame[..];
    if r.dy < r.sy && r.dx < r.sx {
      for j := 0 to r.height
        invariant AreaCopied(was, frame[..], stride, r, 0, j)
      {
        ghost var mid := frame[..];
        CopyRowForward(frame, stride, r, j);
        AreaGrows(was, mid, frame[..], stride, r, 0, j, j, 0, j + 1);
      }
    } else if r.dy < r.sy && r.dx >= r.sx {
      for j := 0 to r.height
        invariant AreaCopied(was, frame[..], stride, r, 0, j)
      {
        ghost var mid := frame[..];
        CopyRowBackward(frame, stride, r, j);
        AreaGrows(was, mid, frame[..], stride, r, 0, j, j, 0, j + 1);
      }
    } else if r.dy >= r.sy && r.dx < r.sx {
      for j := r.height downto 0
        invariant AreaCopied(was, frame[..], stride, r, j, r.height)
      {
        ghost var mid := frame[..];
        CopyRowForward(frame, stride, r, j);
        AreaGrows(was, mid, frame[..], stride, r, j + 1, r.height, j, j, r.height);
      }
    } else {
      for j := r.height downto 0
        invariant AreaCopied(was, frame[..], stride, r, j, r.height)
      {
        ghost var mid := frame[..];
        CopyRowBackward(frame, stride, r, j);
        AreaGrows(was, mid, frame[..], stride, r, j + 1, r.height, j, j, r.height);
      }
    }
  }

  /** What that means: the destination shows what the source showed before. */
  lemma DestinationShowsSource(was: seq<Pixel>, now: seq<Pixel>, stride: nat, r: Region, j: nat, i: nat)
    requires Fits(|was|, stride, r) && AreaCopied(was, now, stride, r, 0, r.height) && j < r.height && i < r.width
    ensures At(stride, r.dy + j, r.dx + i) < |was| && At(stride, r.sy + j, r.sx + i) < |was| == |now|
    ensures now[At(stride, r.dy + j, r.dx + i)] == was[At(stride, r.sy + j, r.sx + i)]
  {
    FitsInside(|was|, stride, r, j, i);
    FitsIn(|was|, stride, r, i);
  }

  lemma EveryIndexIsAt(stride: nat, k: nat)
    requires 0 < stride
    ensures 0 <= k % stride < stride && k == At(stride, k / stride, k % stride)
  {
  }

  /** Every other pixel, given by its index, is as it was. */
  lemma OthersUntouched(was: seq<Pixel>, now: seq<Pixel>, stride: nat, r: Region, k: nat)
    requires Fits(|was|, stride, r) && AreaCopied(was, now, stride, r, 0, r.height) && k < |was|
    requires !(r.dy <= k / stride < r.dy + r.height && r.dx <= k % stride < r.dx + r.width)
    ensures |now| == |was| && now[k] == was[k]
  {
    hide At;
    var y, x := k / stride, k % stride;
    EveryIndexIsAt(stride, k);
    assert now[At(stride, y, x)] == AreaPixel(was, stride, r, 0, r.height, y, x);
  }
}

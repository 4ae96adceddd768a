/**
 * The 8x8 average hash ("aHash") of an image.
 *
 * The browser shrinks the image onto an 8x8 canvas and reads back its RGBA
 * bytes; that part is a host call and enters here as the byte sequence it
 * yields. From those bytes the hash takes one gray value per pixel, their mean,
 * and emits '1' for a pixel strictly brighter than the mean and '0' otherwise,
 * in raster order.
 */
module AHash {

  /** Side of the reduced canvas, in pixels. */
  const Size: nat := 8

  type Byte = x: int | 0 <= x < 256

  /** Pixel data as `getImageData` returns it: four bytes (R, G, B, A) per pixel. */
  type Rgba = s: seq<Byte> | |s| % 4 == 0

  /**
   * Luminance of one pixel with the ITU-R BT.601 weights 0.299, 0.587, 0.114,
   * rounded half up to an integer, computed exactly in thousandths.
   */
  function Luma(r: Byte, g: Byte, b: Byte): (y: Byte)
    ensures 1000 * y - 500 <= 299 * r + 587 * g + 114 * b < 1000 * y + 500
    ensures r == g == b ==> y == r
    ensures Min3(r, g, b) <= y <= Max3(r, g, b)
  {
    (299 * r + 587 * g + 114 * b + 500) / 1000
  }

  function Min3(a: int, b: int, c: int): int {
    if a <= b && a <= c then a else if b <= c then b else c
  }

  function Max3(a: int, b: int, c: int): int {
    if a >= b && a >= c then a else if b >= c then b else c
  }

  /** The gray value of every pixel of `data`, in raster order. */
  function Grays(data: Rgba): (g: seq<Byte>)
    ensures |g| == |data| / 4
    decreases |data|
  {
    if data == [] then []
    else [Luma(data[0], data[1], data[2])] + Grays(data[4..])
  }

  /** Pixel `k` of `data` has gray value `Grays(data)[k]`: the luma of bytes 4k, 4k+1, 4k+2. */
  lemma {:induction false} GrayAt(data: Rgba, k: nat)
    requires k < |data| / 4
    ensures 4 * k + 2 < |data|
    ensures Grays(data)[k] == Luma(data[4 * k], data[4 * k + 1], data[4 * k + 2])
    decreases k
  {
    if k > 0 {
      GrayAt(data[4..], k - 1);
    }
  }

  function Sum(s: seq<int>): int {
    if s == [] then 0 else Sum(s[..|s| - 1]) + s[|s| - 1]
  }

  /**
   * `v` is strictly above the mean of `gray`. The source compares `v > sum / n`
   * in floating point; with `n > 0` that is `v * n > sum` on integers.
   */
  predicate AboveMean(v: int, gray: seq<int>) {
    v * |gray| > Sum(gray)
  }

  /** The integer comparison agrees with the division the source performs. */
  lemma AboveMeanIsDivision(v: int, gray: seq<int>)
    requires gray != []
    ensures AboveMean(v, gray) <==> (v as real) > (Sum(gray) as real) / (|gray| as real)
  {
  }

  /** `gray.map(v => v > avg ? '1' : '0').join('')`. */
  function Threshold(gray: seq<int>): (h: string)
    ensures |h| == |gray|
    ensures forall i :: 0 <= i < |h| ==> (h[i] == '1' <==> AboveMean(gray[i], gray))
    ensures forall i :: 0 <= i < |h| ==> h[i] == '0' || h[i] == '1'
  {
    seq(|gray|, i requires 0 <= i < |gray| => if AboveMean(gray[i], gray) then '1' else '0')
  }

  /** The hash of an image whose canvas read-back is `data`. */
  function AHashOf(data: Rgba): string {
    Threshold(Grays(data))
  }

  /** `imageToAHash`: the gray values are pushed one pixel at a time, four bytes per step. */
  method ImageToAHash(data: Rgba) returns (hash: string)
    ensures hash == AHashOf(data)
    ensures |hash| == |data| / 4
    ensures |data| == 4 * Size * Size ==> |hash| == 64
  {
    var gray: seq<Byte> := [];
    var i := 0;
    while i < |data|
      invariant 0 <= i <= |data| && (|data| - i) % 4 == 0
      invariant Grays(data) == gray + Grays(data[i..])
      decreases |data| - i
    {
      var r, g, b := data[i], data[i + 1], data[i + 2];
      ghost var rest: Rgba := data[i..];
      assert rest[4..] == data[i + 4..];
      assert Grays(rest) == [Luma(r, g, b)] + Grays(rest[4..]);
      gray := gray + [Luma(r, g, b)];
      i := i + 4;
    }
    assert data[i..] == [];
    assert gray == Grays(data);
    hash := Threshold(gray);
  }

  /** The sum of values that are all at least `m` is at least `|s| * m`; strictly more if one exceeds `m`. */
  lemma {:induction false} SumAtLeast(s: seq<int>, m: int)
    requires forall x :: x in s ==> m <= x
    ensures Sum(s) >= |s| * m
    ensures (exists x :: x in s && m < x) ==> Sum(s) > |s| * m
  {
    if s != [] {
      var init := s[..|s| - 1];
      assert forall x :: x in init ==> x in s;
      assert s[|s| - 1] in s;
      assert Sum(s) == Sum(init) + s[|s| - 1];
      SumAtLeast(init, m);
      assert |s| * m == |init| * m + m;
      if exists x :: x in s && m < x {
        var x :| x in s && m < x;
        if x !in init {
          assert x == s[|s| - 1];
        }
      }
    }
  }

  /** The sum of values that are all at most `m` is at most `|s| * m`; strictly less if one is below `m`. */
  lemma {:induction false} SumAtMost(s: seq<int>, m: int)
    requires forall x :: x in s ==> x <= m
    ensures Sum(s) <= |s| * m
    ensures (exists x :: x in s && x < m) ==> Sum(s) < |s| * m
  {
    if s != [] {
      var init := s[..|s| - 1];
      assert forall x :: x in init ==> x in s;
      assert s[|s| - 1] in s;
      assert Sum(s) == Sum(init) + s[|s| - 1];
      SumAtMost(init, m);
      assert |s| * m == |init| * m + m;
      if exists x :: x in s && x < m {
        var x :| x in s && x < m;
        if x !in init {
          assert x == s[|s| - 1];
        }
      }
    }
  }

  /** Some element of a non-empty sequence is no larger than any other. */
  lemma {:induction false} HasMinimum(s: seq<int>) returns (k: nat)
    requires s != []
    ensures k < |s| && forall x :: x in s ==> s[k] <= x
  {
    if |s| == 1 {
      k := 0;
    } else {
      var j := HasMinimum(s[1..]);
      assert forall x :: x in s ==> x == s[0] || x in s[1..];
      k := if s[0] <= s[1..][j] then 0 else j + 1;
    }
  }

  /** Some element of a non-empty sequence is no smaller than any other. */
  lemma {:induction false} HasMaximum(s: seq<int>) returns (k: nat)
    requires s != []
    ensures k < |s| && forall x :: x in s ==> x <= s[k]
  {
    if |s| == 1 {
      k := 0;
    } else {
      var j := HasMaximum(s[1..]);
      assert forall x :: x in s ==> x == s[0] || x in s[1..];
      k := if s[0] >= s[1..][j] then 0 else j + 1;
    }
  }

  /** A pixel of minimal gray is never above the mean, so a non-empty hash has a '0' bit. */
  lemma HashHasZeroBit(gray: seq<int>)
    requires gray != []
    ensures exists i :: 0 <= i < |gray| && Threshold(gray)[i] == '0'
  {
    var k := HasMinimum(gray);
    SumAtLeast(gray, gray[k]);
    assert Threshold(gray)[k] == '0';
  }

  /** The hash is all '0' exactly when every pixel has the same gray value. */
  lemma AllZeroIffUniform(gray: seq<int>)
    ensures (forall i :: 0 <= i < |gray| ==> Threshold(gray)[i] == '0')
        <==> (forall i, j :: 0 <= i < |gray| && 0 <= j < |gray| ==> gray[i] == gray[j])
  {
    if gray != [] {
      if forall i, j :: 0 <= i < |gray| && 0 <= j < |gray| ==> gray[i] == gray[j] {
        var c := gray[0];
        assert forall x :: x in gray ==> x == c;
        SumAtMost(gray, c);
        SumAtLeast(gray, c);
        forall i | 0 <= i < |gray| ensures Threshold(gray)[i] == '0' {
          assert gray[i] * |gray| == c * |gray|;
        }
      } else {
        var i, j :| 0 <= i < |gray| && 0 <= j < |gray| && gray[i] != gray[j];
        var k := HasMaximum(gray);
        assert gray[i] in gray && gray[j] in gray;
        var low := if gray[i] < gray[k] then gray[i] else gray[j];
        assert low in gray && low < gray[k];
        SumAtMost(gray, gray[k]);
        assert Threshold(gray)[k] == '1';
      }
    }
  }
}

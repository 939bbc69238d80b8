/** map_mixw_cb: every weight gets the index of its nearest centroid in log space, or the sentinel
    index |cb| when the weight is at or below the zero threshold. */
module Mapper {
  import opened Bytes

  function Sq(x: real): real { x * x }

  /** dist = (cb - l) ** 2, element by element. */
  function Distances(cb: seq<real>, l: real): (d: seq<real>)
    ensures |d| == |cb|
    ensures forall i :: 0 <= i < |cb| ==> d[i] == Sq(cb[i] - l)
  {
    seq(|cb|, i requires 0 <= i < |cb| => Sq(cb[i] - l))
  }

  /** k is the first index of a minimum of d. */
  predicate IsFirstMin(d: seq<real>, k: int)
  {
    0 <= k < |d| &&
    (forall i :: 0 <= i < |d| ==> d[k] <= d[i]) &&
    (forall i :: 0 <= i < k ==> d[k] < d[i])
  }

  /** numpy's argmin: ties go to the lowest index. */
  function ArgMin(d: seq<real>): (k: nat)
    requires |d| > 0
    ensures IsFirstMin(d, k)
    decreases |d|
  {
    if |d| == 1 then 0
    else
      var k := ArgMin(d[..|d| - 1]);
      if d[|d| - 1] < d[k] then |d| - 1 else k
  }

  /** The first minimum is unique, so any index that is one is the one argmin returns. */
  lemma FirstMinUnique(d: seq<real>, k: int)
    requires IsFirstMin(d, k)
    ensures k == ArgMin(d)
  {
  }

  /** The index stored for one weight x, whose natural logarithm is ln(x). */
  function CellCode(x: real, cb: seq<real>, zero: real, ln: real -> real): (code: nat)
    requires x <= zero || |cb| > 0
    ensures code <= |cb|
    ensures code == |cb| <==> x <= zero
    ensures x > zero ==> IsFirstMin(Distances(cb, ln(x)), code)
  {
    if x <= zero then |cb| else ArgMin(Distances(cb, ln(x)))
  }

  /** map_mixw_cb completes unless some weight is above the threshold while the codebook is empty,
      where argmin of an empty array raises. */
  predicate Mappable(mixw: array3<real>, cb: seq<real>, zero: real)
    reads mixw
  {
    |cb| > 0 ||
    forall s, f, g :: 0 <= s < mixw.Length0 && 0 <= f < mixw.Length1 && 0 <= g < mixw.Length2 ==>
      mixw[s, f, g] <= zero
  }

  /** Cell (s, f, g) can be mapped: its weight is at most the threshold or there is a centroid. */
  predicate Defined(mixw: array3<real>, cb: seq<real>, zero: real, s: nat, f: nat, g: nat)
    requires s < mixw.Length0 && f < mixw.Length1 && g < mixw.Length2
    reads mixw
  {
    mixw[s, f, g] <= zero || |cb| > 0
  }

  /** The index map_mixw_cb stores in cell (s, f, g). */
  function CodeAt(mixw: array3<real>, cb: seq<real>, zero: real, ln: real -> real, s: nat, f: nat, g: nat): nat
    requires s < mixw.Length0 && f < mixw.Length1 && g < mixw.Length2
    requires Defined(mixw, cb, zero, s, f, g)
    reads mixw
  {
    CellCode(mixw[s, f, g], cb, zero, ln)
  }

  /** The innermost loop of map_mixw_cb: cells (s, f, 0..n_gau) of mwmap; no other cell changes. It
      stops early, where the source raises, at a weight above the threshold with an empty codebook. */
  method MapGaussians(mixw: array3<real>, cb: seq<real>, zero: real, ln: real -> real,
                      mwmap: array3<byte>, s: nat, f: nat) returns (ok: bool)
    requires s < mixw.Length0 && f < mixw.Length1
    requires mwmap.Length0 == mixw.Length0 && mwmap.Length1 == mixw.Length1 && mwmap.Length2 == mixw.Length2
    modifies mwmap
    ensures !ok ==> !Mappable(mixw, cb, zero)
    ensures ok ==> forall g :: 0 <= g < mixw.Length2 ==>
      Defined(mixw, cb, zero, s, f, g) && mwmap[s, f, g] as int == CodeAt(mixw, cb, zero, ln, s, f, g) % 0x100
    ensures forall s', f', g ::
      (0 <= s' < mixw.Length0 && 0 <= f' < mixw.Length1 && 0 <= g < mixw.Length2 && (s' != s || f' != f)) ==>
        mwmap[s', f', g] == old(mwmap[s', f', g])
  {
    for g := 0 to mixw.Length2
      invariant forall g' :: 0 <= g' < g ==>
        Defined(mixw, cb, zero, s, f, g') && mwmap[s, f, g'] as int == CodeAt(mixw, cb, zero, ln, s, f, g') % 0x100
      invariant forall s', f', g' ::
        (0 <= s' < mixw.Length0 && 0 <= f' < mixw.Length1 && 0 <= g' < mixw.Length2 && (s' != s || f' != f)) ==>
          mwmap[s', f', g'] == old(mwmap[s', f', g'])
    {
      var x := mixw[s, f, g];
      if x > zero && |cb| == 0 {
        assert !Mappable(mixw, cb, zero) by {
          assert mixw[s, f, g] > zero;
        }
        return false;
      }
      // x <= zero gives the sentinel |cb|; otherwise the argmin of (cb - log x) ** 2; uint8 keeps 8 bits
      var code := CellCode(x, cb, zero, ln);
      mwmap[s, f, g] := (code % 0x100) as byte;
    }
    ok := true;
  }

  /** map_mixw_cb: three nested loops filling a fresh uint8 array of the same shape. */
  method MapMixwCb(mixw: array3<real>, cb: seq<real>, zero: real, ln: real -> real)
    returns (ok: bool, mwmap: array3<byte>)
    ensures fresh(mwmap)
    ensures mwmap.Length0 == mixw.Length0 && mwmap.Length1 == mixw.Length1 && mwmap.Length2 == mixw.Length2
    ensures ok <==> Mappable(mixw, cb, zero)
    ensures ok ==> forall s, f, g :: 0 <= s < mixw.Length0 && 0 <= f < mixw.Length1 && 0 <= g < mixw.Length2 ==>
      Defined(mixw, cb, zero, s, f, g) && mwmap[s, f, g] as int == CodeAt(mixw, cb, zero, ln, s, f, g) % 0x100
  {
    var nSen, nFeat, nGau := mixw.Length0, mixw.Length1, mixw.Length2;
    mwmap := new byte[nSen, nFeat, nGau];
    for s := 0 to nSen
      invariant forall s', f, g :: 0 <= s' < s && 0 <= f < nFeat && 0 <= g < nGau ==>
        Defined(mixw, cb, zero, s', f, g) && mwmap[s', f, g] as int == CodeAt(mixw, cb, zero, ln, s', f, g) % 0x100
    {
      for f := 0 to nFeat
        invariant forall s', f', g :: 0 <= s' < s && 0 <= f' < nFeat && 0 <= g < nGau ==>
          Defined(mixw, cb, zero, s', f', g) && mwmap[s', f', g] as int == CodeAt(mixw, cb, zero, ln, s', f', g) % 0x100
        invariant forall f', g :: 0 <= f' < f && 0 <= g < nGau ==>
          Defined(mixw, cb, zero, s, f', g) && mwmap[s, f', g] as int == CodeAt(mixw, cb, zero, ln, s, f', g) % 0x100
      {
        var rowOk := MapGaussians(mixw, cb, zero, ln, mwmap, s, f);
        if !rowOk {
          return false, mwmap;
        }
      }
    }
    ok := true;
    assert Mappable(mixw, cb, zero) by {
      if |cb| == 0 {
        forall s, f, g | 0 <= s < nSen && 0 <= f < nFeat && 0 <= g < nGau
          ensures mixw[s, f, g] <= zero
        {
          assert Defined(mixw, cb, zero, s, f, g);
        }
      }
    }
  }
}

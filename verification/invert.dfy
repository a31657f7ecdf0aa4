/** `cv2.bitwise_not` on a single-channel 8-bit mask. */
module Invert {
  import opened Bytes
  import opened Raster

  /** Bitwise complement of one uint8, computed arithmetically. */
  function Not(x: Byte): (r: Byte)
    ensures r == (!(x as bv8)) as int
    ensures r == 255 <==> x == 0
    ensures r == 0 <==> x == 255
    ensures x < 128 <==> r >= 128
  {
    255 - x
  }

  /** Complement every cell of the mask. */
  function InvertMask(m: Mask): (r: Mask)
    ensures SameShape(r, m)
    ensures forall i, j :: 0 <= i < |m| && 0 <= j < |m[i]| ==>
              (m[i][j] == 0 <==> r[i][j] == 255) && (m[i][j] == 255 <==> r[i][j] == 0)
    ensures forall i, j :: 0 <= i < |m| && 0 <= j < |m[i]| ==> r[i][j] as int + m[i][j] as int == 255
  {
    seq(|m|, i requires 0 <= i < |m| => seq(|m[i]|, j requires 0 <= j < |m[i]| => Not(m[i][j])))
  }

  /** Complement is an involution on bytes and swaps 0 and 255. */
  lemma NotInvolution(x: Byte)
    ensures Not(Not(x)) == x
    ensures Not(0) == 255 && Not(255) == 0
  {
  }

  /** Inverting twice with nothing in between restores the mask. */
  lemma InvertInvolution(m: Mask)
    ensures InvertMask(InvertMask(m)) == m
  {
    var r := InvertMask(InvertMask(m));
    assert |r| == |m|;
    forall i | 0 <= i < |m|
      ensures r[i] == m[i]
    {
      assert |r[i]| == |m[i]|;
    }
  }

  /** Inverting a uniform mask gives the uniform mask of the complement. */
  lemma InvertUniform(m: Mask, v: Byte)
    requires Uniform(m, v)
    ensures Uniform(InvertMask(m), Not(v))
  {
  }
}

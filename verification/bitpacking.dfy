/**
 Regrouping of bit strings, most significant bit first.

 BIP-0039 reads entropy bytes as a bit string and cuts that bit string into
 11-bit word indices; reading a phrase back reverses both steps. `Unpack`
 writes each value as a fixed number of bits, `Pack` reads consecutive
 groups of bits as values; the two are inverse to each other.
 */
module BitPacking {
  import opened Digits

  /** Each element of `xs` written as `w` bits, concatenated. */
  function Unpack(xs: seq<nat>, w: nat): (bits: seq<nat>)
    ensures |bits| == |xs| * w
    ensures IsDigits(bits, 2)
  {
    if |xs| == 0 then []
    else
      var head, tail := ToFixedDigits(xs[0], w, 2), Unpack(xs[1..], w);
      assert |xs| * w == w + (|xs| - 1) * w;
      assert IsDigits(head + tail, 2) by {
        forall i | 0 <= i < |head + tail|
          ensures (head + tail)[i] < 2
        {
          if i < |head| { assert (head + tail)[i] == head[i]; }
          else { assert (head + tail)[i] == tail[i - |head|]; }
        }
      }
      head + tail
  }

  /** Consecutive groups of `w` bits, each read as a number. */
  function Pack(bits: seq<nat>, w: nat): (xs: seq<nat>)
    requires w > 0 && |bits| % w == 0
    ensures |xs| * w == |bits|
    ensures IsDigits(bits, 2) ==> IsDigits(xs, Pow(2, w))
    decreases |bits|
  {
    if |bits| == 0 then []
    else
      ModStep(|bits|, w);
      var head, tail := FromDigits(bits[..w], 2), Pack(bits[w..], w);
      assert |([head] + tail)| * w == w + |tail| * w;
      assert IsDigits(bits, 2) ==> IsDigits([head] + tail, Pow(2, w)) by {
        if IsDigits(bits, 2) {
          assert IsDigits(bits[..w], 2);
          assert IsDigits(bits[w..], 2);
          FromDigitsBound(bits[..w], 2);
        }
      }
      [head] + tail
  }

  /** Writing values as bits and regrouping the bits gives the values back. */
  lemma {:induction false} PackUnpack(xs: seq<nat>, w: nat)
    requires w > 0
    requires IsDigits(xs, Pow(2, w))
    ensures |Unpack(xs, w)| % w == 0
    ensures Pack(Unpack(xs, w), w) == xs
    decreases |xs|
  {
    var bits := Unpack(xs, w);
    ModMultiple(|xs|, w);
    if |xs| > 0 {
      var head := ToFixedDigits(xs[0], w, 2);
      assert bits == head + Unpack(xs[1..], w);
      assert bits[..w] == head;
      assert bits[w..] == Unpack(xs[1..], w);
      FromFixedDigits(xs[0], w, 2);
      PackUnpack(xs[1..], w);
      assert xs == [xs[0]] + xs[1..];
    }
  }

  /** Regrouping bits into values and writing the values out gives the bits back. */
  lemma {:induction false} UnpackPack(bits: seq<nat>, w: nat)
    requires w > 0 && |bits| % w == 0
    requires IsDigits(bits, 2)
    ensures Unpack(Pack(bits, w), w) == bits
    decreases |bits|
  {
    if |bits| > 0 {
      ModStep(|bits|, w);
      var xs := Pack(bits, w);
      assert xs[1..] == Pack(bits[w..], w);
      assert IsDigits(bits[w..], 2);
      UnpackPack(bits[w..], w);
      FixedFromDigits(bits[..w], 2);
      assert bits == bits[..w] + bits[w..];
    }
  }

  // Arithmetic facts about whole groups.

  lemma ModStep(n: nat, w: nat)
    requires w > 0 && n > 0 && n % w == 0
    ensures n >= w
    ensures (n - w) % w == 0
  {
    DivMod(n, w);
    var k := n / w;
    assert n == k * w;
    MulPred(k, w);
    DivModOf(k - 1, 0, w);
  }

  lemma MulPred(k: nat, w: nat)
    requires k >= 1
    ensures (k - 1) * w == k * w - w
    ensures k * w >= w
  {}

  lemma ModMultiple(k: nat, w: nat)
    requires w > 0
    ensures (k * w) % w == 0
  {
    DivModOf(k, 0, w);
  }
}

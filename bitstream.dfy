/** The bit-level view of the codec's byte buffers. Bits travel least-significant
    first: a w-bit field v occupies the next w bit positions, bit 0 of v first, and
    each byte of a buffer contributes its bits 0..7 in that order. */
module BitStream {
  import opened Bitwise

  type byte = x: nat | x < 256

  /** The low w bits of v, least-significant first. */
  function NatBits(v: nat, w: nat): (r: seq<bool>)
    ensures |r| == w
  {
    if w == 0 then [] else [v % 2 == 1] + NatBits(v / 2, w - 1)
  }

  /** The number whose bits, least-significant first, are `bits`. */
  function BitsToNat(bits: seq<bool>): (r: nat)
    ensures r < Pow2(|bits|)
  {
    if bits == [] then 0 else (if bits[0] then 1 else 0) + 2 * BitsToNat(bits[1..])
  }

  /** The bits of a buffer, byte after byte. */
  function BytesToBits(bs: seq<byte>): (r: seq<bool>)
    ensures |r| == 8 * |bs|
  {
    if bs == [] then [] else NatBits(bs[0], 8) + BytesToBits(bs[1..])
  }

  /** `w` zero bits. */
  function Zeros(w: nat): seq<bool> {
    NatBits(0, w)
  }

  /** The writer's buffers: `count` pending bits below 2^count, whole bytes written
      within the capacity, and together exactly the bits sent, in order. */
  ghost predicate Buffered(out: seq<byte>, cap: nat, buffer: nat, count: nat, sent: seq<bool>) {
    count < 8 && buffer < Pow2(count) && |out| <= cap && BytesToBits(out) + NatBits(buffer, count) == sent
  }

  /** Reading back the bits of a field gives the value modulo 2^w. */
  lemma {:induction false} NatBitsRoundTrip(v: nat, w: nat)
    ensures BitsToNat(NatBits(v, w)) == v % Pow2(w)
  {
    if w == 0 {
      DivModUnique(v, 1, v, 0);
    } else {
      var bs := NatBits(v, w);
      assert bs[1..] == NatBits(v / 2, w - 1);
      NatBitsRoundTrip(v / 2, w - 1);
      ModPow2Split(v, w);
    }
  }

  /** Writing the value of a bit string reproduces the bit string. */
  lemma {:induction false} BitsToNatRoundTrip(bits: seq<bool>)
    ensures NatBits(BitsToNat(bits), |bits|) == bits
  {
    if bits != [] {
      BitsToNatRoundTrip(bits[1..]);
      var v := BitsToNat(bits);
      var b := if bits[0] then 1 else 0;
      DivModUnique(v, 2, BitsToNat(bits[1..]), b);
    }
  }

  /** A field of e + w bits is its low e bits followed by its high w bits. */
  lemma {:induction false} NatBitsConcat(a: nat, e: nat, b: nat, w: nat)
    requires a < Pow2(e)
    ensures NatBits(a + b * Pow2(e), e + w) == NatBits(a, e) + NatBits(b, w)
  {
    if e == 0 {
      assert a == 0;
    } else {
      var x := a + b * Pow2(e);
      assert Pow2(e) == 2 * Pow2(e - 1);
      assert x == 2 * (a / 2 + b * Pow2(e - 1)) + a % 2;
      DivModUnique(x, 2, a / 2 + b * Pow2(e - 1), a % 2);
      NatBitsConcat(a / 2, e - 1, b, w);
    }
  }

  /** Only the low w bits of a value reach its field. */
  lemma {:induction false} NatBitsLow(v: nat, w: nat)
    ensures NatBits(v, w) == NatBits(v % Pow2(w), w)
  {
    var m := Pow2(w);
    DivModNat(v, m);
    var q, r := v / m, v % m;
    NatBitsConcat(r, w, q, 0);
    assert r + q * m == v;
  }

  lemma {:induction false} BytesToBitsAppend(bs: seq<byte>, b: byte)
    ensures BytesToBits(bs + [b]) == BytesToBits(bs) + NatBits(b, 8)
  {
    if bs != [] {
      assert (bs + [b])[1..] == bs[1..] + [b];
      BytesToBitsAppend(bs[1..], b);
    } else {
      assert [b][1..] == [];
    }
  }

  lemma {:induction false} BytesToBitsSplit(bs: seq<byte>, k: nat)
    requires k <= |bs|
    ensures BytesToBits(bs) == BytesToBits(bs[..k]) + BytesToBits(bs[k..])
  {
    if k > 0 {
      assert bs[..k][1..] == bs[1..][..k - 1];
      assert bs[k..] == bs[1..][k - 1..];
      BytesToBitsSplit(bs[1..], k - 1);
    }
  }

  /** Reading a w-bit field from a bit sequence: the value and what follows, or
      nothing when fewer than w bits remain. */
  function ReadField(bits: seq<bool>, w: nat): (r: Option<(nat, seq<bool>)>)
    ensures r.Some? <==> w <= |bits|
    ensures r.Some? ==> r.value.0 < Pow2(w) && r.value.1 == bits[w..]
  {
    if w <= |bits| then Some((BitsToNat(bits[..w]), bits[w..])) else None
  }

  datatype Option<T> = None | Some(value: T)

  /** The ways an encode or decode call can fail. */
  datatype Error = InputExhausted | OutputExhausted

  datatype Result<T> = Ok(value: T) | Err(error: Error)

  /** A field written with NatBits reads back as its value. */
  lemma ReadFieldNatBits(v: nat, w: nat, rest: seq<bool>)
    requires v < Pow2(w)
    ensures ReadField(NatBits(v, w) + rest, w) == Some((v, rest))
  {
    var bits := NatBits(v, w) + rest;
    assert bits[..w] == NatBits(v, w);
    assert bits[w..] == rest;
    NatBitsRoundTrip(v, w);
    DivModUnique(v, Pow2(w), 0, v);
  }

  /** Appending w bits of v to e pending bits is one e + w bit field. */
  lemma PushField(bs: seq<byte>, a: nat, e: nat, v: nat, w: nat)
    requires a < Pow2(e) && v < Pow2(w)
    ensures 0 <= v * Pow2(e) && a + v * Pow2(e) < Pow2(e + w)
    ensures BytesToBits(bs) + NatBits(a, e) + NatBits(v, w)
         == BytesToBits(bs) + NatBits(a + v * Pow2(e), e + w)
  {
    NatBitsConcat(a, e, v, w);
    FieldBound(a, e, v, w);
  }

  /** An e-bit field is its low w bits followed by its high e - w bits. */
  lemma SplitField(a: nat, e: nat, w: nat) returns (lo: nat, hi: nat)
    requires w <= e && a < Pow2(e)
    ensures lo == a % Pow2(w) && hi == a / Pow2(w)
    ensures lo < Pow2(w) && hi < Pow2(e - w)
    ensures NatBits(a, e) == NatBits(lo, w) + NatBits(hi, e - w)
  {
    var m := Pow2(w);
    Pow2Add(w, e - w);
    DivModNat(a, m);
    hi, lo := a / m, a % m;
    DivBelow(a, m, Pow2(e - w));
    assert a == lo + hi * m;
    NatBitsConcat(lo, w, hi, e - w);
  }

  /** The low byte and the rest of at least eight pending bits. */
  lemma LowByte(a: nat, e: nat) returns (lo: nat, hi: nat)
    requires 8 <= e && a < Pow2(e)
    ensures lo == a % 256 && hi == a / 256 && lo < 256 && hi < Pow2(e - 8)
    ensures NatBits(a, e) == NatBits(lo, 8) + NatBits(hi, e - 8)
  {
    assert Pow2(8) == 256;
    lo, hi := SplitField(a, e, 8);
  }

  /** Writing out the low byte of at least eight pending bits keeps the bit sequence. */
  lemma FlushByte(bs: seq<byte>, a: nat, e: nat)
    requires 8 <= e && a < Pow2(e)
    ensures a % 256 < 256 && a / 256 < Pow2(e - 8)
    ensures BytesToBits(bs + [a % 256]) + NatBits(a / 256, e - 8)
         == BytesToBits(bs) + NatBits(a, e)
  {
    var lo, hi := LowByte(a, e);
    BytesToBitsAppend(bs, lo);
    var front, low, high := BytesToBits(bs), NatBits(lo, 8), NatBits(hi, e - 8);
    assert (front + low) + high == front + (low + high);
  }

  /** Fetching the next byte into the pending bits keeps the bit sequence. */
  lemma FetchByte(a: nat, e: nat, bs: seq<byte>)
    requires a < Pow2(e) && bs != []
    ensures 0 <= bs[0] * Pow2(e) && a + bs[0] * Pow2(e) < Pow2(e + 8)
    ensures NatBits(a, e) + BytesToBits(bs)
         == NatBits(a + bs[0] * Pow2(e), e + 8) + BytesToBits(bs[1..])
  {
    Pow2Table();
    FieldBound(a, e, bs[0], 8);
    NatBitsConcat(a, e, bs[0], 8);
    assert BytesToBits(bs) == NatBits(bs[0], 8) + BytesToBits(bs[1..]);
  }

  /** Taking w of the pending bits: their low w bits, the rest stay pending. */
  lemma TakeField(a: nat, e: nat, w: nat, rest: seq<bool>) returns (lo: nat, hi: nat)
    requires w <= e && a < Pow2(e)
    ensures lo == a % Pow2(w) && hi == a / Pow2(w) && hi < Pow2(e - w)
    ensures ReadField(NatBits(a, e) + rest, w) == Some((lo, NatBits(hi, e - w) + rest))
  {
    lo, hi := SplitField(a, e, w);
    assert NatBits(a, e) + rest == NatBits(lo, w) + (NatBits(hi, e - w) + rest);
    ReadFieldNatBits(lo, w, NatBits(hi, e - w) + rest);
  }

  /** The decoder's refill step: byte `at` of the input joins the pending bits. */
  lemma FetchStep(a: nat, e: nat, bs: seq<byte>, at: nat)
    requires a < Pow2(e) && at < |bs|
    ensures 0 <= bs[at] * Pow2(e) && a + bs[at] * Pow2(e) < Pow2(e + 8)
    ensures NatBits(a + bs[at] * Pow2(e), e + 8) + BytesToBits(bs[at + 1..])
         == NatBits(a, e) + BytesToBits(bs[at..])
  {
    FetchByte(a, e, bs[at..]);
    assert bs[at..][1..] == bs[at + 1..];
  }

  /** The decoder's extraction step: `a & (2^w - 1)` is the next field, `a >> w` stays pending. */
  lemma TakeStep(a: nat, e: nat, w: nat, rest: seq<bool>)
    requires w <= e && a < Pow2(e)
    ensures 0 <= a / Pow2(w) < Pow2(e - w)
    ensures ReadField(NatBits(a, e) + rest, w)
         == Some((BitAnd(a, Pow2(w) - 1), NatBits(a / Pow2(w), e - w) + rest))
  {
    var lo, hi := TakeField(a, e, w, rest);
    AndLowMask(a, w);
  }
}

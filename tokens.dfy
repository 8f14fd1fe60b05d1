/** The fixed-width token layout of the compressed stream: a flag bit, then either
    a literal field, or a length field followed by a distance field. The end of
    the stream is a match token whose length field is all ones. */
module Tokens {
  import opened Bitwise
  import opened BitStream
  import opened Lz77Params

  datatype Token =
    | Literal(value: nat)
    | Match(length: nat, distance: nat)
    | End

  /** A match token of the given length and distance (`EnviarCoincidencia`). */
  function MatchBits(p: Params, length: nat, distance: nat): (r: seq<bool>)
    requires Derivable(p) && length > p.threshold
    ensures |r| == 1 + p.lengthBits + p.dictBits
  {
    NatBits(1, 1) + NatBits(length - (p.threshold + 1), p.lengthBits) + NatBits(distance, p.dictBits)
  }

  /** A literal token (`EnviarCaracter`). */
  function LiteralBits(p: Params, value: nat): (r: seq<bool>)
    requires Derivable(p) && p.charBits >= 0
    ensures |r| == 1 + p.charBits
  {
    NatBits(0, 1) + NatBits(value, p.charBits)
  }

  /** Sending a match token's three fields one after the other appends its bits. */
  lemma MatchFieldsAppend(p: Params, length: nat, distance: nat,
                          s0: seq<bool>, s1: seq<bool>, s2: seq<bool>, s3: seq<bool>)
    requires Derivable(p) && length > p.threshold
    requires s1 == s0 + NatBits(1, 1)
    requires s2 == s1 + NatBits(length - (p.threshold + 1), p.lengthBits)
    requires s3 == s2 + NatBits(distance, p.dictBits)
    ensures s3 == s0 + MatchBits(p, length, distance)
  {
    var flag, len, dist := NatBits(1, 1), NatBits(length - (p.threshold + 1), p.lengthBits),
                           NatBits(distance, p.dictBits);
    assert s0 + flag + len + dist == s0 + (flag + len + dist);
  }

  /** The bits the encoder writes for one token; the end marker is the match of
      length max_coincidencia + 1 and distance 0. */
  function TokenBits(p: Params, t: Token): (r: seq<bool>)
    requires Valid(p)
    ensures r == [] <==> t.Match? && t.length <= p.threshold
    ensures r != [] ==> (r[0] <==> !t.Literal?)
  {
    match t
    case Literal(v) => LiteralBits(p, v)
    case Match(l, d) => if l > p.threshold then MatchBits(p, l, d) else []
    case End => MatchBits(p, Derive(p).maxMatch + 1, 0)
  }

  function TokensBits(p: Params, ts: seq<Token>): seq<bool>
    requires Valid(p)
  {
    if ts == [] then [] else TokenBits(p, ts[0]) + TokensBits(p, ts[1..])
  }

  lemma {:induction false} TokensBitsAppend(p: Params, ts: seq<Token>, t: Token)
    requires Valid(p)
    ensures TokensBits(p, ts + [t]) == TokensBits(p, ts) + TokenBits(p, t)
  {
    if ts == [] {
      assert [t][1..] == [];
    } else {
      var u := ts + [t];
      calc {
        TokensBits(p, u);
        TokenBits(p, u[0]) + TokensBits(p, u[1..]);
        { assert u[0] == ts[0] && u[1..] == ts[1..] + [t]; TokensBitsAppend(p, ts[1..], t); }
        TokenBits(p, ts[0]) + (TokensBits(p, ts[1..]) + TokenBits(p, t));
      }
    }
  }

  /** A token the encoder may emit in the middle of a stream: a literal whose value
      fits its field, or a match whose length lies strictly above the threshold and
      at most at the longest match, and whose distance fits the window. */
  predicate EncodableToken(p: Params, t: Token)
    requires Valid(p)
  {
    match t
    case Literal(v) => v < Pow2(p.charBits)
    case Match(l, d) => p.threshold < l <= Derive(p).maxMatch && d < Derive(p).dictSize
    case End => false
  }

  /** One token read from the front of a bit sequence, the way the decoder reads it:
      the flag, then the literal, or the length and, unless the length is the end
      marker's, the distance. Nothing when the bits run out first. */
  function ReadToken(p: Params, bits: seq<bool>): (r: Option<(Token, seq<bool>)>)
    requires Valid(p)
    ensures r.Some? ==> |r.value.1| < |bits|
    ensures r.Some? && r.value.0.Match? ==> r.value.0.distance < Pow2(p.dictBits)
  {
    match ReadField(bits, 1)
    case None => None
    case Some((flag, rest)) =>
      if flag == 0 then
        match ReadField(rest, p.charBits)
        case None => None
        case Some((v, rest2)) => Some((Literal(v), rest2))
      else
        match ReadField(rest, p.lengthBits)
        case None => None
        case Some((f, rest2)) =>
          var k := p.threshold + 1 + f;
          if k == Derive(p).maxMatch + 1 then Some((End, rest2))
          else
            match ReadField(rest2, p.dictBits)
            case None => None
            case Some((dist, rest3)) => Some((Match(k, dist), rest3))
  }

  /** Real matches never carry the end marker's length field: their field is at most
      2^bits_coincidencia - 2, the marker's is 2^bits_coincidencia - 1. */
  lemma EndFieldUnique(p: Params, length: nat)
    requires Valid(p) && p.threshold < length <= Derive(p).maxMatch
    ensures length - (p.threshold + 1) <= Pow2(p.lengthBits) - 2
    ensures Derive(p).maxMatch + 1 - (p.threshold + 1) == Pow2(p.lengthBits) - 1
    ensures length - (p.threshold + 1) != Derive(p).maxMatch + 1 - (p.threshold + 1)
  {
  }

  /** Every token the encoder emits reads back as itself. */
  lemma ReadTokenRoundTrip(p: Params, t: Token, rest: seq<bool>)
    requires Valid(p) && EncodableToken(p, t)
    ensures ReadToken(p, TokenBits(p, t) + rest) == Some((t, rest))
  {
    match t {
      case Literal(v) => ReadLiteralRoundTrip(p, v, rest);
      case Match(l, d) => ReadMatchRoundTrip(p, l, d, rest);
    }
  }

  lemma ReadLiteralRoundTrip(p: Params, v: nat, rest: seq<bool>)
    requires Valid(p) && v < Pow2(p.charBits)
    ensures ReadToken(p, LiteralBits(p, v) + rest) == Some((Literal(v), rest))
  {
    assert Pow2(1) == 2;
    var tail := NatBits(v, p.charBits) + rest;
    assert LiteralBits(p, v) + rest == NatBits(0, 1) + tail;
    ReadFieldNatBits(0, 1, tail);
    ReadFieldNatBits(v, p.charBits, rest);
  }

  lemma ReadMatchRoundTrip(p: Params, l: nat, d: nat, rest: seq<bool>)
    requires Valid(p) && p.threshold < l <= Derive(p).maxMatch && d < Derive(p).dictSize
    ensures ReadToken(p, MatchBits(p, l, d) + rest) == Some((Match(l, d), rest))
  {
    var f := l - (p.threshold + 1);
    EndFieldUnique(p, l);
    assert MatchBits(p, l, d) + rest
      == NatBits(1, 1) + (NatBits(f, p.lengthBits) + (NatBits(d, p.dictBits) + rest));
    ReadMatchFields(p, f, d, rest);
  }

  /** The three fields of a match token, read in turn. */
  lemma ReadMatchFields(p: Params, f: nat, d: nat, rest: seq<bool>)
    requires Valid(p) && f <= Pow2(p.lengthBits) - 2 && d < Pow2(p.dictBits)
    ensures var bits := NatBits(1, 1) + (NatBits(f, p.lengthBits) + (NatBits(d, p.dictBits) + rest));
      ReadToken(p, bits) == Some((Match(p.threshold + 1 + f, d), rest))
  {
    assert Pow2(1) == 2;
    var tail2 := NatBits(d, p.dictBits) + rest;
    var tail1 := NatBits(f, p.lengthBits) + tail2;
    ReadFieldNatBits(1, 1, tail1);
    ReadFieldNatBits(f, p.lengthBits, tail2);
    ReadFieldNatBits(d, p.dictBits, rest);
  }

  /** The end marker reads back as the end of the stream; its distance field is left unread. */
  lemma ReadEndMarker(p: Params, rest: seq<bool>)
    requires Valid(p)
    ensures ReadToken(p, TokenBits(p, End) + rest) == Some((End, NatBits(0, p.dictBits) + rest))
  {
    Pow2Table();
    var f := Derive(p).maxMatch + 1 - (p.threshold + 1);
    assert f == Pow2(p.lengthBits) - 1;
    assert TokenBits(p, End) + rest
      == NatBits(1, 1) + (NatBits(f, p.lengthBits) + (NatBits(0, p.dictBits) + rest));
    ReadFieldNatBits(1, 1, NatBits(f, p.lengthBits) + (NatBits(0, p.dictBits) + rest));
    ReadFieldNatBits(f, p.lengthBits, NatBits(0, p.dictBits) + rest);
  }
}

/** What a token sequence means, independently of any window or bit layout: a
    literal appends its byte to the output, and a match of length k and distance d
    appends k bytes, each a copy of the byte d positions before it (so a match may
    overlap the bytes it produces). */
module History {
  import opened BitStream
  import opened Tokens

  /** h followed by k bytes, each copied from d positions back. */
  function CopyBack(h: seq<byte>, k: nat, d: nat): (r: seq<byte>)
    requires 1 <= d <= |h|
    ensures |r| == |h| + k && r[..|h|] == h
    decreases k
  {
    if k == 0 then h else
      var r := CopyBack(h + [h[|h| - d]], k - 1, d);
      assert r[..|h|] == r[..|h| + 1][..|h|];
      r
  }

  /** Every byte CopyBack adds equals the byte d positions before it. */
  lemma {:induction false} CopyBackCopies(h: seq<byte>, k: nat, d: nat, n: nat)
    requires 1 <= d <= |h| && |h| <= n < |h| + k
    ensures CopyBack(h, k, d)[n] == CopyBack(h, k, d)[n - d]
    decreases k
  {
    var h1 := h + [h[|h| - d]];
    var r := CopyBack(h1, k - 1, d);
    assert r[..|h1|] == h1;
    if n > |h| {
      CopyBackCopies(h1, k - 1, d, n);
    } else {
      assert r[n] == h1[n] && r[n - d] == h1[n - d];
    }
  }

  /** Conversely, a sequence that extends h by k bytes, each equal to the byte d
      positions before it, is what CopyBack produces. */
  lemma {:induction false} CopyBackIsUnique(h: seq<byte>, k: nat, d: nat, s: seq<byte>)
    requires 1 <= d <= |h| && |s| == |h| + k && s[..|h|] == h
    requires forall n :: |h| <= n < |s| ==> s[n] == s[n - d]
    ensures CopyBack(h, k, d) == s
    decreases k
  {
    if k > 0 {
      var h1 := h + [h[|h| - d]];
      assert s[..|h1|] == h1 by {
        assert s[|h|] == s[|h| - d] == h[|h| - d];
      }
      CopyBackIsUnique(h1, k - 1, d, s);
    } else {
      assert s == s[..|h|];
    }
  }

  /** A token that can be replayed after the output h: a byte-sized literal, or a
      match whose distance reaches back into h. */
  predicate ReplayableToken(h: seq<byte>, t: Token) {
    match t
    case Literal(v) => v < 256
    case Match(k, d) => 1 <= d <= |h|
    case End => false
  }

  function ReplayToken(h: seq<byte>, t: Token): (r: seq<byte>)
    requires ReplayableToken(h, t)
    ensures |r| > |h| || (t.Match? && r == h)
  {
    match t
    case Literal(v) => h + [v]
    case Match(k, d) => CopyBack(h, k, d)
  }

  predicate Replayable(h: seq<byte>, ts: seq<Token>)
    decreases |ts|
  {
    ts == [] || (ReplayableToken(h, ts[0]) && Replayable(ReplayToken(h, ts[0]), ts[1..]))
  }

  /** The output after h of replaying ts. */
  function Replay(h: seq<byte>, ts: seq<Token>): (r: seq<byte>)
    requires Replayable(h, ts)
    ensures |r| >= |h| && r[..|h|] == h
    decreases |ts|
  {
    if ts == [] then h else
      var h1 := ReplayToken(h, ts[0]);
      assert h1[..|h|] == h by {
        if ts[0].Literal? { assert h1 == h + [ts[0].value]; }
      }
      var r := Replay(h1, ts[1..]);
      assert r[..|h|] == r[..|h1|][..|h|];
      r
  }

  /** Replaying a sequence and then one more token. */
  lemma {:induction false} ReplayAppend(h: seq<byte>, ts: seq<Token>, t: Token)
    requires Replayable(h, ts) && ReplayableToken(Replay(h, ts), t)
    ensures Replayable(h, ts + [t])
    ensures Replay(h, ts + [t]) == ReplayToken(Replay(h, ts), t)
    decreases |ts|
  {
    if ts == [] {
      assert [t][1..] == [];
    } else {
      assert (ts + [t])[1..] == ts[1..] + [t];
      ReplayAppend(ReplayToken(h, ts[0]), ts[1..], t);
    }
  }
}

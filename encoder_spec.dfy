/** What the encoder's tables mean. The window is filled sector by sector and
    wraps around: in the current cycle, which starts at input position `base`,
    the first `fill` slots hold that cycle's bytes and the remaining slots still
    hold the previous cycle's. The link table and the hash-bucket heads hold slot
    numbers (or NONE); their meaning is given through the input position of the
    slot they name. */
module EncoderSpec {
  import opened Bitwise
  import opened BitStream
  import opened Lz77Params
  import opened Tokens
  import opened History

  /** The "no entry" value of the hash and link tables (`NULO`). */
  const NONE: nat := 0xFFFF

  /** The input position of window slot v (negative when the slot was never filled). */
  function Off(n: nat, base: int, fill: nat, v: nat): int {
    if v < fill then base + v else base + v - n
  }

  /** Every filled window slot holds the input byte at its position. */
  ghost predicate WindowHolds(n: nat, base: int, fill: nat, win: seq<byte>, input: seq<byte>) {
    n <= |win| &&
    forall v :: 0 <= v < n && 0 <= Off(n, base, fill, v) ==>
      Off(n, base, fill, v) < |input| && win[v] == input[Off(n, base, fill, v)]
  }

  /** The tail of the window repeats its head, as far as a match may run into it. */
  ghost predicate Mirrored(n: nat, sector: nat, maxMatch: nat, win: seq<byte>) {
    n + maxMatch <= |win| &&
    forall m :: 0 <= m < sector && m < maxMatch ==> win[n + m] == win[m]
  }

  /** Every entry of a table is NONE or a window slot. */
  ghost predicate InRange(n: nat, t: seq<nat>) {
    forall s :: 0 <= s < |t| ==> t[s] == NONE || t[s] < n
  }

  /** The chain invariant: every link of a slot whose position lies in [lo, upto)
      names an earlier position no older than lo, and every bucket head names a
      position in [lo, upto). */
  ghost predicate ChainsValid(n: nat, base: int, fill: nat, lo: int, upto: int,
                              links: seq<nat>, hash: seq<nat>) {
    |links| == n &&
    (forall s {:trigger links[s]} :: 0 <= s < n && lo <= Off(n, base, fill, s) < upto && links[s] != NONE ==>
       links[s] < n && lo <= Off(n, base, fill, links[s]) < Off(n, base, fill, s)) &&
    (forall b :: 0 <= b < |hash| && hash[b] != NONE ==>
       hash[b] < n && lo <= Off(n, base, fill, hash[b]) < upto)
  }

  /** The slot reached from s after k links (NONE once a chain ends). */
  function Follow(links: seq<nat>, s: nat, k: nat): nat {
    if k == 0 then s else
      var t := Follow(links, s, k - 1);
      if t < |links| then links[t] else NONE
  }

  /** t lies on the chain of s within `steps` links. */
  ghost predicate Reachable(links: seq<nat>, s: nat, t: nat, steps: nat) {
    exists k :: 1 <= k <= steps && Follow(links, s, k) == t
  }

  /** Under the chain invariant, a chain walked from a slot only reaches older
      positions, none older than lo. */
  lemma {:induction false} FollowBehind(n: nat, base: int, fill: nat, lo: int, upto: int,
                                        links: seq<nat>, hash: seq<nat>, s: nat, k: nat)
    requires n <= 0x8000 && ChainsValid(n, base, fill, lo, upto, links, hash)
    requires s < n && lo <= Off(n, base, fill, s) < upto
    requires k >= 1 && Follow(links, s, k) != NONE
    ensures Follow(links, s, k) < n
    ensures lo <= Off(n, base, fill, Follow(links, s, k)) < Off(n, base, fill, s)
  {
    var t := Follow(links, s, k - 1);
    if k > 1 {
      assert t != NONE;
      FollowBehind(n, base, fill, lo, upto, links, hash, s, k - 1);
    }
  }

  lemma ReachableBehind(n: nat, base: int, fill: nat, lo: int, upto: int,
                        links: seq<nat>, hash: seq<nat>, s: nat, t: nat, steps: nat)
    requires n <= 0x8000 && ChainsValid(n, base, fill, lo, upto, links, hash)
    requires s < n && lo <= Off(n, base, fill, s) < upto
    requires t != NONE && Reachable(links, s, t, steps)
    ensures t < n && lo <= Off(n, base, fill, t) < Off(n, base, fill, s)
  {
    var k :| 1 <= k <= steps && Follow(links, s, k) == t;
    FollowBehind(n, base, fill, lo, upto, links, hash, s, k);
  }

  /** A filled slot of the current sector holds the input byte at its position. */
  lemma WindowByte(n: nat, base: int, fill: nat, win: seq<byte>, input: seq<byte>, v: nat)
    requires WindowHolds(n, base, fill, win, input) && 0 <= base && v < fill <= n
    ensures base + v < |input| && win[v] == input[base + v]
  {
    assert Off(n, base, fill, v) == base + v;
  }

  /** The window bytes at a.. and b.. agree for len bytes. */
  ghost predicate Agree(win: seq<byte>, a: nat, b: nat, len: nat) {
    a + len <= |win| && b + len <= |win| &&
    forall k :: a <= k < a + len ==> win[k] == win[b + (k - a)]
  }

  /** Bytes that agree for len bytes agree for fewer. */
  lemma AgreePrefix(win: seq<byte>, a: nat, b: nat, len: nat, len2: nat)
    requires Agree(win, a, b, len) && len2 <= len
    ensures Agree(win, a, b, len2)
  {
  }

  /** Window bytes that agree at slots pos.. and c.. agree at the input positions
      those slots hold, as long as the comparison stays inside the filled part of
      the current sector. */
  lemma MatchSound(n: nat, sector: nat, maxMatch: nat, base: int, fill: nat,
                   win: seq<byte>, input: seq<byte>, pos: nat, c: nat, len: nat, dist: int)
    requires base >= 0 && WindowHolds(n, base, fill, win, input) && Mirrored(n, sector, maxMatch, win)
    requires 1 <= len && pos + len <= fill <= n && len <= sector && len <= maxMatch
    requires c < n && 0 <= Off(n, base, fill, c) < base + pos
    requires dist == base + pos - Off(n, base, fill, c)
    requires Agree(win, pos, c, len)
    ensures base + pos + len <= |input|
    ensures forall k :: base + pos <= k < base + pos + len ==> input[k] == input[k - dist]
  {
    assert Off(n, base, fill, pos + len - 1) == base + pos + len - 1;
    forall k | base + pos <= k < base + pos + len
      ensures input[k] == input[k - dist]
    {
      var q := k - (base + pos);
      assert Off(n, base, fill, pos + q) == k;
      assert win[pos + q] == input[k];
      assert win[pos + q] == win[c + q];
      if c + q < n {
        assert Off(n, base, fill, c + q) == Off(n, base, fill, c) + q;
      } else {
        var m := c + q - n;
        assert win[n + m] == win[m];
        assert Off(n, base, fill, m) == base + m;
      }
    }
  }

  /** A match whose bytes each equal the byte d positions earlier extends the
      replayed prefix of the input by its length. */
  lemma MatchExtends(input: seq<byte>, at: nat, len: nat, d: nat)
    requires 1 <= d <= at && at + len <= |input|
    requires forall k :: at <= k < at + len ==> input[k] == input[k - d]
    ensures CopyBack(input[..at], len, d) == input[..at + len]
  {
    var s := input[..at + len];
    assert s[..at] == input[..at];
    forall m | at <= m < |s| ensures s[m] == s[m - d] {
      assert input[m] == input[m - d];
    }
    CopyBackIsUnique(input[..at], len, d, s);
  }

  /** The distance the parser sends, `(i - c) & (tam_diccionario - 1)` on 32-bit
      unsigned values, is how far back the matched position lies. */
  lemma Distance(n: nat, db: nat, base: int, fill: nat, pos: nat, c: nat)
    requires 1 <= db <= 15 && n == Pow2(db)
    requires pos < fill <= n && c < n
    requires base + pos - n < Off(n, base, fill, c) < base + pos
    ensures BitAnd((pos - c) % 0x1_0000_0000, n - 1) == base + pos - Off(n, base, fill, c)
  {
    var x := pos - c;
    var dist := base + pos - Off(n, base, fill, c);
    Pow2Table();
    Pow2Monotone(db, 15);
    Pow2Add(16, 16);
    Pow2Add(db, 32 - db);
    var w := Pow2(32 - db);
    assert n * w == 0x1_0000_0000;
    AndLowMask(x % 0x1_0000_0000, db);
    WindowDistance(x, n, w, dist);
  }

  /** A difference of window slots, taken modulo 2^32 and then modulo the window
      size n (a divisor of 2^32), is the distance it stands for: the difference
      itself, or the difference plus n when it wrapped below zero. */
  lemma WindowDistance(x: int, n: nat, w: nat, dist: nat)
    requires 1 <= n && 1 <= w && n * w == 0x1_0000_0000 && dist < n
    requires x == dist || x == dist - n
    ensures (x % 0x1_0000_0000) % n == dist
  {
    if x == dist {
      MulAtLeast(n, w);
      DivModUnique(x, 0x1_0000_0000, 0, x);
      DivModUnique(x, n, 0, x);
    } else {
      MulAtLeast(n, w);
      DivModUnique(x, 0x1_0000_0000, -1, x + 0x1_0000_0000);
      MulPred(n, w);
      assert x + 0x1_0000_0000 == n * (w - 1) + dist;
      DivModUnique(x + 0x1_0000_0000, n, w - 1, dist);
    }
  }

  /** 0xFFFF is one below a multiple of the sector size. */
  lemma NoneModSector(sb: nat)
    requires sb <= 16
    ensures NONE % Pow2(sb) == Pow2(sb) - 1
  {
    Pow2Table();
    Pow2Add(sb, 16 - sb);
    var s: int, w: int := Pow2(sb), Pow2(16 - sb);
    assert s * w == 0x10000;
    MulPred(s, w);
    DivModUnique(NONE, s, w - 1, s - 1);
  }

  /** A slot lies in the sector at pos exactly when rounding it down to the sector
      size gives pos. */
  lemma InSector(e: nat, pos: nat, s: nat)
    requires s >= 1 && pos % s == 0
    ensures e - e % s == pos <==> pos <= e < pos + s
  {
    DivModNat(pos, s);
    DivModNat(e, s);
    if pos <= e < pos + s {
      DivModUnique(e, s, pos / s, e - pos);
    }
  }

  /** The eviction test `(entry & mascara_sector) == posicion` holds exactly for
      entries naming a slot of the sector at posicion; NONE never passes it. */
  lemma EvictTest(e: nat, pos: nat, sb: nat, n: nat)
    requires sb <= 15 && n <= 0x8000 && pos + Pow2(sb) <= n && pos % Pow2(sb) == 0
    requires e == NONE || e < n
    ensures BitAnd(e, 0x10000 - Pow2(sb)) == pos <==> pos <= e < pos + Pow2(sb)
  {
    Pow2Table();
    AndHighMask(e, sb, 16);
    if e == NONE {
      NoneModSector(sb);
    } else {
      InSector(e, pos, Pow2(sb));
    }
  }

  /** Clearing the entries that point into the sector at pos, when the window is
      full up to pos, raises the oldest reachable position by one sector. */
  lemma EvictKeepsChains(n: nat, sector: nat, base: int, pos: nat,
                         links: seq<nat>, hash: seq<nat>, links2: seq<nat>, hash2: seq<nat>)
    requires pos + sector <= n && base >= n
    requires ChainsValid(n, base, pos, base + pos - n, base + pos, links, hash)
    requires |links2| == |links| && |hash2| == |hash|
    requires forall s :: 0 <= s < |links| ==>
      links2[s] == if pos <= links[s] < pos + sector then NONE else links[s]
    requires forall b :: 0 <= b < |hash| ==>
      hash2[b] == if pos <= hash[b] < pos + sector then NONE else hash[b]
    ensures ChainsValid(n, base, pos, base + pos + sector - n, base + pos, links2, hash2)
  {
    var lo := base + pos + sector - n;
    forall s | 0 <= s < n && lo <= Off(n, base, pos, s) < base + pos && links2[s] != NONE
      ensures links2[s] < n && lo <= Off(n, base, pos, links2[s]) < Off(n, base, pos, s)
    {
      assert links2[s] == links[s];
    }
    forall b | 0 <= b < |hash2| && hash2[b] != NONE
      ensures hash2[b] < n && lo <= Off(n, base, pos, hash2[b]) < base + pos
    {
      assert hash2[b] == hash[b];
    }
  }

  /** Loading the sector at pos moves no chain, once nothing points into it. */
  lemma LoadKeepsChains(n: nat, base: int, pos: nat, bytes: nat, lo: int,
                        links: seq<nat>, hash: seq<nat>)
    requires pos + bytes <= n && base + pos + bytes - n <= lo
    requires ChainsValid(n, base, pos, lo, base + pos, links, hash)
    ensures ChainsValid(n, base, pos + bytes, lo, base + pos, links, hash)
  {
    var f := pos + bytes;
    forall s | 0 <= s < n && lo <= Off(n, base, f, s) < base + pos && links[s] != NONE
      ensures links[s] < n && lo <= Off(n, base, f, links[s]) < Off(n, base, f, s)
    {
      assert Off(n, base, f, s) == Off(n, base, pos, s);
      assert Off(n, base, f, links[s]) == Off(n, base, pos, links[s]);
    }
    forall b | 0 <= b < |hash| && hash[b] != NONE
      ensures hash[b] < n && lo <= Off(n, base, f, hash[b]) < base + pos
    {
      assert Off(n, base, f, hash[b]) == Off(n, base, pos, hash[b]);
    }
  }

  /** Loading the sector at pos from the input keeps the window invariant. */
  lemma LoadKeepsWindow(n: nat, base: int, pos: nat, bytes: nat,
                        win: seq<byte>, win2: seq<byte>, input: seq<byte>)
    requires pos + bytes <= n <= |win| == |win2| && base >= 0 && base + pos + bytes <= |input|
    requires WindowHolds(n, base, pos, win, input)
    requires forall v :: 0 <= v < n ==>
      win2[v] == if pos <= v < pos + bytes then input[base + v] else win[v]
    ensures WindowHolds(n, base, pos + bytes, win2, input)
  {
    forall v | 0 <= v < n && 0 <= Off(n, base, pos + bytes, v)
      ensures Off(n, base, pos + bytes, v) < |input| && win2[v] == input[Off(n, base, pos + bytes, v)]
    {
      if !(pos <= v < pos + bytes) {
        assert Off(n, base, pos + bytes, v) == Off(n, base, pos, v);
      }
    }
  }

  /** Inserting slot i at the head of bucket j keeps the chain invariant and
      admits i as a source. */
  lemma InsertKeepsChains(n: nat, base: int, fill: nat, lo: int, i: nat, j: nat,
                          links: seq<nat>, hash: seq<nat>)
    requires i < fill <= n && lo <= base + i && j < |hash|
    requires ChainsValid(n, base, fill, lo, base + i, links, hash)
    ensures ChainsValid(n, base, fill, lo, base + i + 1, links[i := hash[j]], hash[j := i])
  {
    var links2 := links[i := hash[j]];
    var hash2 := hash[j := i];
    forall s | 0 <= s < n && lo <= Off(n, base, fill, s) < base + i + 1 && links2[s] != NONE
      ensures links2[s] < n && lo <= Off(n, base, fill, links2[s]) < Off(n, base, fill, s)
    {
      if s == i {
        assert links2[s] == hash[j];
      } else {
        assert Off(n, base, fill, s) != base + i;
      }
    }
  }

  /** Sources whose links are all NONE may join the invariant freely. */
  lemma ExtendUpto(n: nat, base: int, fill: nat, lo: int, from: nat,
                   links: seq<nat>, hash: seq<nat>)
    requires from <= fill <= n
    requires ChainsValid(n, base, fill, lo, base + from, links, hash)
    requires forall s :: from <= s < fill ==> links[s] == NONE
    ensures ChainsValid(n, base, fill, lo, base + fill, links, hash)
  {
    forall s | 0 <= s < n && lo <= Off(n, base, fill, s) < base + fill && links[s] != NONE
      ensures links[s] < n && lo <= Off(n, base, fill, links[s]) < Off(n, base, fill, s)
    {
      if s < fill {
        assert s < from;
      }
    }
  }

  /** A full cycle becomes the previous cycle of the next one, which starts at
      `next`, without moving any slot. */
  lemma WrapKeeps(n: nat, base: int, next: int, lo: int, upto: int, win: seq<byte>, input: seq<byte>,
                  links: seq<nat>, hash: seq<nat>)
    requires next == base + n
    requires WindowHolds(n, base, n, win, input)
    requires ChainsValid(n, base, n, lo, upto, links, hash)
    ensures WindowHolds(n, next, 0, win, input)
    ensures ChainsValid(n, next, 0, lo, upto, links, hash)
  {
    assert forall v :: 0 <= v < n ==> Off(n, next, 0, v) == Off(n, base, n, v);
  }

  /** The bucket index the rolling hash produces, `((j << s) & (tam_hash - 1)) ^ c`,
      lies inside the hash table when the byte fits in bits_hash bits. */
  lemma BucketInRange(x: nat, c: nat, hb: nat)
    requires c < Pow2(hb)
    ensures Xor(BitAnd(x, Pow2(hb) - 1), c) < Pow2(hb)
  {
    AndLowMask(x, hb);
    XorBound(BitAnd(x, Pow2(hb) - 1), c, hb);
  }

  /** How many bytes at a.. and b.. agree, counting at most cap of them: the
      comparison loop of `EncontrarCoincidencia`. */
  function Common(win: seq<byte>, a: nat, b: nat, cap: nat): (r: nat)
    ensures r <= cap
    decreases cap
  {
    if cap == 0 || a >= |win| || b >= |win| || win[a] != win[b] then 0
    else 1 + Common(win, a + 1, b + 1, cap - 1)
  }

  /** The counted bytes agree, and the byte after them differs unless the cap or
      the window stopped the count. */
  lemma {:induction false} CommonAgrees(win: seq<byte>, a: nat, b: nat, cap: nat)
    requires a <= |win| && b <= |win|
    ensures Agree(win, a, b, Common(win, a, b, cap))
    ensures var m := Common(win, a, b, cap);
      m < cap && a + m < |win| && b + m < |win| ==> win[a + m] != win[b + m]
    decreases cap
  {
    if !(cap == 0 || a >= |win| || b >= |win| || win[a] != win[b]) {
      CommonAgrees(win, a + 1, b + 1, cap - 1);
    }
  }

  /** A difference at offset m bounds the count by m: the quick test of the byte
      just past the best length in `EncontrarCoincidencia`. */
  lemma {:induction false} CommonBelow(win: seq<byte>, a: nat, b: nat, cap: nat, m: nat)
    requires m < cap && a + m < |win| && b + m < |win| && win[a + m] != win[b + m]
    ensures Common(win, a, b, cap) <= m
    decreases m
  {
    if m > 0 && win[a] == win[b] {
      CommonBelow(win, a + 1, b + 1, cap - 1, m - 1);
    }
  }

  /** Once a chain ends, it stays ended. */
  lemma {:induction false} FollowNone(links: seq<nat>, s: nat, k: nat, m: nat)
    requires |links| <= NONE && k <= m && Follow(links, s, k) == NONE
    ensures Follow(links, s, m) == NONE
    decreases m - k
  {
    if k < m {
      FollowNone(links, s, k, m - 1);
    }
  }

  /** A chain that reaches a slot starts with a link. */
  lemma {:induction false} FollowStarts(links: seq<nat>, s: nat, k: nat)
    requires |links| <= NONE && 1 <= k && Follow(links, s, k) != NONE
    ensures s < |links| && links[s] != NONE
    decreases k
  {
    if k > 1 {
      FollowStarts(links, s, k - 1);
    }
  }

  /** No slot reached from s within `steps` links agrees with s on more than
      len of its first cap bytes, stated link by link. */
  ghost predicate Longest(win: seq<byte>, links: seq<nat>, s: nat, steps: nat, cap: nat, len: nat)
    decreases steps
  {
    steps == 0 ||
    (Longest(win, links, s, steps - 1, cap, len) &&
     (Follow(links, s, steps) != NONE ==> Common(win, s, Follow(links, s, steps), cap) <= len))
  }

  /** Longest means what it says, for every link count up to steps. */
  lemma {:induction false} LongestMeans(win: seq<byte>, links: seq<nat>, s: nat, steps: nat, cap: nat, len: nat)
    requires Longest(win, links, s, steps, cap, len)
    ensures forall k :: 1 <= k <= steps && Follow(links, s, k) != NONE ==>
      Common(win, s, Follow(links, s, k), cap) <= len
    decreases steps
  {
    if steps > 0 {
      LongestMeans(win, links, s, steps - 1, cap, len);
    }
  }

  /** Every slot reached in fewer than at links from s matches fewer than len
      bytes: the slot at link at is the first on the chain with its length. */
  ghost predicate FirstLongest(win: seq<byte>, links: seq<nat>, s: nat, at: nat, cap: nat, len: nat)
    decreases at
  {
    at <= 1 ||
    (FirstLongest(win, links, s, at - 1, cap, len) &&
     (Follow(links, s, at - 1) != NONE ==> Common(win, s, Follow(links, s, at - 1), cap) < len))
  }

  /** FirstLongest means what it says, for every link count below at. */
  lemma {:induction false} FirstLongestMeans(win: seq<byte>, links: seq<nat>, s: nat, at: nat, cap: nat, len: nat)
    requires FirstLongest(win, links, s, at, cap, len)
    ensures forall k :: 1 <= k < at && Follow(links, s, k) != NONE ==>
      Common(win, s, Follow(links, s, k), cap) < len
    decreases at
  {
    if at > 1 {
      FirstLongestMeans(win, links, s, at - 1, cap, len);
    }
  }

  /** A strictly longer match found at link steps + 1 is the first of its length. */
  lemma {:induction false} LongestBelow(win: seq<byte>, links: seq<nat>, s: nat, steps: nat, cap: nat, len: nat, j: nat)
    requires Longest(win, links, s, steps, cap, len) && len < j
    ensures FirstLongest(win, links, s, steps + 1, cap, j)
    decreases steps
  {
    if steps > 0 {
      LongestBelow(win, links, s, steps - 1, cap, len, j);
    }
  }

  /** A longer best length keeps the bound. */
  lemma {:induction false} LongestMore(win: seq<byte>, links: seq<nat>, s: nat, steps: nat, cap: nat, len: nat, len2: nat)
    requires Longest(win, links, s, steps, cap, len) && len <= len2
    ensures Longest(win, links, s, steps, cap, len2)
    decreases steps
  {
    if steps > 0 {
      LongestMore(win, links, s, steps - 1, cap, len, len2);
    }
  }

  /** One more link walked. */
  lemma LongestNext(win: seq<byte>, links: seq<nat>, s: nat, steps: nat, cap: nat, len: nat, len2: nat)
    requires Longest(win, links, s, steps, cap, len) && len <= len2
    requires Follow(links, s, steps + 1) != NONE ==> Common(win, s, Follow(links, s, steps + 1), cap) <= len2
    ensures Longest(win, links, s, steps + 1, cap, len2)
  {
    LongestMore(win, links, s, steps, cap, len, len2);
  }

  /** A walk that stopped at the end of its chain has seen every slot it could reach. */
  lemma {:induction false} LongestEnd(win: seq<byte>, links: seq<nat>, s: nat, steps: nat, all: nat, cap: nat, len: nat)
    requires |links| <= NONE && steps <= all && Follow(links, s, steps) == NONE
    requires Longest(win, links, s, steps, cap, len)
    ensures Longest(win, links, s, all, cap, len)
    decreases all
  {
    if steps < all {
      LongestEnd(win, links, s, steps, all - 1, cap, len);
      FollowNone(links, s, steps, all);
    }
  }

  /** A match of the full cap bytes is never beaten. */
  lemma {:induction false} LongestFull(win: seq<byte>, links: seq<nat>, s: nat, steps: nat, cap: nat)
    ensures Longest(win, links, s, steps, cap, cap)
    decreases steps
  {
    if steps > 0 {
      LongestFull(win, links, s, steps - 1, cap);
    }
  }

  /** Every entry of xs is below bound. */
  predicate Below(xs: seq<nat>, bound: nat) {
    forall t :: 0 <= t < |xs| ==> xs[t] < bound
  }

  /** The rolling hash of `HashearDatos` over slots at .. at + count - 1, from the
      value j it had before slot at: each step shifts the value left by s, keeps
      the bits under mask and xors in the byte u slots ahead. */
  function Roll(win: seq<byte>, at: nat, count: nat, j: nat, s: nat, mask: nat, u: nat): (r: seq<nat>)
    requires at + count + u <= |win|
    ensures |r| == count
    decreases count
  {
    if count == 0 then []
    else
      var next := Xor(BitAnd(Shl(j, s), mask), win[at + u]);
      [next] + Roll(win, at + 1, count - 1, next, s, mask, u)
  }

  /** With a mask of hb low bits and bytes of at most hb bits, every hash value
      is below 2^hb. */
  lemma {:induction false} RollBound(win: seq<byte>, at: nat, count: nat, j: nat, s: nat, hb: nat, u: nat)
    requires at + count + u <= |win|
    requires forall v :: at + u <= v < at + count + u ==> win[v] < Pow2(hb)
    ensures Below(Roll(win, at, count, j, s, Pow2(hb) - 1, u), Pow2(hb))
    decreases count
  {
    if count > 0 {
      var next := Xor(BitAnd(Shl(j, s), Pow2(hb) - 1), win[at + u]);
      BucketInRange(Shl(j, s), win[at + u], hb);
      RollBound(win, at + 1, count - 1, next, s, hb, u);
      var q := Roll(win, at + 1, count - 1, next, s, Pow2(hb) - 1, u);
      assert Roll(win, at, count, j, s, Pow2(hb) - 1, u) == [next] + q;
    }
  }

  /** The buckets of slots pos .. pos + count - 1: the rolling hash of
      `HashearDatos` started from `(window[pos] << bits_desplazamiento) ^ window[pos + 1]`.
      Each is a bucket of the table when the bytes hashed in fit in bits_caracter bits. */
  function Buckets(p: Params, win: seq<byte>, pos: nat, count: nat): (r: seq<nat>)
    requires Valid(p) && pos + 1 < |win| && pos + count + p.threshold <= |win|
    requires forall v :: pos + p.threshold <= v < pos + count + p.threshold ==> win[v] < Pow2(p.charBits)
    ensures |r| == count && forall t :: 0 <= t < count ==> r[t] < Derive(p).hashSize
  {
    var s, j := Derive(p).hashShift, Xor(Shl(win[pos], Derive(p).hashShift), win[pos + 1]);
    Pow2Monotone(p.charBits, p.hashBits);
    RollBound(win, pos, count, j, s, p.hashBits, p.threshold);
    Roll(win, pos, count, j, s, Pow2(p.hashBits) - 1, p.threshold)
  }

  /** One round of the hashing loop: slot i takes the next hash value, and
      inserting it first, then the slots after it, inserts them all. */
  lemma RollInsert(win: seq<byte>, i: nat, k: nat, j: nat, s: nat, hb: nat, u: nat,
                   links: seq<nat>, hash: seq<nat>, goal: (seq<nat>, seq<nat>))
    requires i < k && k + u <= |win| && k <= |links| && |hash| == Pow2(hb)
    requires forall v :: i + u <= v < k + u ==> win[v] < Pow2(hb)
    requires Below(Roll(win, i, k - i, j, s, Pow2(hb) - 1, u), |hash|)
    requires Insert(links, hash, i, Roll(win, i, k - i, j, s, Pow2(hb) - 1, u)) == goal
    ensures var next := Xor(BitAnd(Shl(j, s), Pow2(hb) - 1), win[i + u]);
      var rest := Roll(win, i + 1, k - i - 1, next, s, Pow2(hb) - 1, u);
      next < |hash| && Below(rest, |hash|) &&
      Insert(links[i := hash[next]], hash[next := i], i + 1, rest) == goal
  {
    var next := Xor(BitAnd(Shl(j, s), Pow2(hb) - 1), win[i + u]);
    var rest := Roll(win, i + 1, k - i - 1, next, s, Pow2(hb) - 1, u);
    var keys := Roll(win, i, k - i, j, s, Pow2(hb) - 1, u);
    assert keys == [next] + rest;
    assert keys[0] == next && keys[1..] == rest;
    RollBound(win, i + 1, k - i - 1, next, s, hb, u);
  }

  /** The table t with the entries of slots a .. b - 1 set to NONE. */
  function Clear(t: seq<nat>, a: nat, b: nat): (r: seq<nat>)
    ensures |r| == |t| && forall s :: 0 <= s < |t| ==> r[s] == if a <= s < b then NONE else t[s]
  {
    seq(|t|, s requires 0 <= s < |t| => if a <= s < b then NONE else t[s])
  }

  /** The first of the slots pos .. pos + bytes - 1 that `HashearDatos` leaves
      without a link: the last umbral of them, or all of them when there are no
      more. */
  function Unhashed(p: Params, pos: nat, bytes: nat): nat {
    if bytes <= p.threshold then pos else pos + bytes - p.threshold
  }

  /** The chain tables after inserting slots first, first + 1, ... at the heads of
      the buckets keys[0], keys[1], ...: each slot's link becomes the previous
      head of its bucket, and the bucket's head becomes the slot. */
  function Insert(links: seq<nat>, hash: seq<nat>, first: nat, keys: seq<nat>): (r: (seq<nat>, seq<nat>))
    requires first + |keys| <= |links| && forall t :: 0 <= t < |keys| ==> keys[t] < |hash|
    ensures |r.0| == |links| && |r.1| == |hash|
    decreases |keys|
  {
    if keys == [] then (links, hash)
    else Insert(links[first := hash[keys[0]]], hash[keys[0] := first], first + 1, keys[1..])
  }

  /** Inserting the slots of positions base + first .. in order keeps the chain
      invariant and admits them all as sources. */
  lemma {:induction false} InsertChains(n: nat, base: int, fill: nat, lo: int, first: nat,
                                        links: seq<nat>, hash: seq<nat>, keys: seq<nat>)
    requires first + |keys| <= fill <= n && lo <= base + first
    requires forall t :: 0 <= t < |keys| ==> keys[t] < |hash|
    requires ChainsValid(n, base, fill, lo, base + first, links, hash)
    ensures ChainsValid(n, base, fill, lo, base + first + |keys|,
                        Insert(links, hash, first, keys).0, Insert(links, hash, first, keys).1)
    decreases |keys|
  {
    if keys != [] {
      InsertKeepsChains(n, base, fill, lo, first, keys[0], links, hash);
      InsertChains(n, base, fill, lo, first + 1, links[first := hash[keys[0]]], hash[keys[0] := first], keys[1..]);
    }
  }

  /** Insertion keeps every table entry NONE or a window slot, and moves no link
      outside the inserted slots. */
  lemma {:induction false} InsertRange(n: nat, first: nat, links: seq<nat>, hash: seq<nat>, keys: seq<nat>)
    requires first + |keys| <= |links| == n
    requires forall t :: 0 <= t < |keys| ==> keys[t] < |hash|
    requires InRange(n, links) && InRange(n, hash)
    ensures InRange(n, Insert(links, hash, first, keys).0) && InRange(n, Insert(links, hash, first, keys).1)
    ensures forall s :: 0 <= s < n && !(first <= s < first + |keys|) ==> Insert(links, hash, first, keys).0[s] == links[s]
    decreases |keys|
  {
    if keys != [] {
      InsertRange(n, first + 1, links[first := hash[keys[0]]], hash[keys[0] := first], keys[1..]);
    }
  }

  /** What `HashearDatos` leaves, for a sector filled up to `fill` whose slots from
      k on are too close to its end to hash: the chain invariant now admits every
      slot of the sector as a source, the slots from k on have no link, and every
      table entry is still NONE or a window slot. */
  lemma HashedChains(n: nat, base: int, fill: nat, lo: int, pos: nat, k: nat,
                     links: seq<nat>, hash: seq<nat>, keys: seq<nat>)
    requires pos <= k <= fill <= n && k == pos + |keys| && lo <= base + pos
    requires forall t :: 0 <= t < |keys| ==> keys[t] < |hash|
    requires ChainsValid(n, base, fill, lo, base + pos, links, hash)
    requires InRange(n, links) && InRange(n, hash)
    ensures var r := Insert(Clear(links, k, fill), hash, pos, keys);
      ChainsValid(n, base, fill, lo, base + fill, r.0, r.1) &&
      InRange(n, r.0) && InRange(n, r.1) &&
      (forall s :: k <= s < fill ==> r.0[s] == NONE) &&
      (forall s :: 0 <= s < n && !(pos <= s < fill) ==> r.0[s] == links[s])
  {
    var c := Clear(links, k, fill);
    assert ChainsValid(n, base, fill, lo, base + pos, c, hash) by {
      forall s | 0 <= s < n && lo <= Off(n, base, fill, s) < base + pos && c[s] != NONE
        ensures c[s] < n && lo <= Off(n, base, fill, c[s]) < Off(n, base, fill, s)
      {
        assert c[s] == links[s];
      }
    }
    InsertChains(n, base, fill, lo, pos, c, hash, keys);
    InsertRange(n, pos, c, hash, keys);
    var r := Insert(c, hash, pos, keys);
    ExtendUpto(n, base, fill, lo, k, r.0, r.1);
  }

  /** The tables once the input before position `at` == base + fill is loaded,
      in the window cycle that starts at input position base: the window holds
      that input, its tail mirrors its head once anything is loaded, every chain
      stays behind position at and no older than lo, and every table entry is
      NONE or a window slot. */
  ghost predicate TablesHold(n: nat, sector: nat, maxMatch: nat, base: int, fill: nat, lo: int, at: nat,
                             input: seq<byte>, win: seq<byte>, links: seq<nat>, hash: seq<nat>) {
    0 <= base && at == base + fill && WindowHolds(n, base, fill, win, input) &&
    ((base > 0 || fill > 0) ==> Mirrored(n, sector, maxMatch, win)) &&
    ChainsValid(n, base, fill, lo, base + fill, links, hash) && InRange(n, links) && InRange(n, hash)
  }

  /** Before anything is loaded, tables whose every entry is NONE hold the
      (empty) input seen so far. */
  lemma EmptyTables(n: nat, sector: nat, maxMatch: nat, input: seq<byte>, win: seq<byte>,
                    links: seq<nat>, hash: seq<nat>)
    requires n <= |win| && |links| == n
    requires forall s :: 0 <= s < |links| ==> links[s] == NONE
    requires forall b :: 0 <= b < |hash| ==> hash[b] == NONE
    ensures TablesHold(n, sector, maxMatch, 0, 0, 0, 0, input, win, links, hash)
  {
  }

  /** The encoder's tables, as values, while the bytes loaded at window slot pos,
      which end at slot fill, are parsed in the window cycle that starts at input
      position base; lo is the oldest position a chain may still reach. */
  datatype Snapshot = Snapshot(base: int, pos: nat, fill: nat, lo: int,
                               win: seq<byte>, links: seq<nat>, hash: seq<nat>)

  /** The parse invariant: the window holds the input, its tail mirrors its head,
      every chain stays inside the window behind slot fill and no older than lo,
      every link names NONE or a window slot, and the last u slots loaded carry
      no link. */
  ghost predicate Parsing(n: nat, sector: nat, maxMatch: nat, u: nat, t: Snapshot, input: seq<byte>) {
    0 <= t.base && t.pos < t.fill <= n && t.fill - t.pos <= sector &&
    0 <= t.lo <= t.base + t.pos && t.base + t.fill - n <= t.lo &&
    WindowHolds(n, t.base, t.fill, t.win, input) && Mirrored(n, sector, maxMatch, t.win) &&
    ChainsValid(n, t.base, t.fill, t.lo, t.base + t.fill, t.links, t.hash) && InRange(n, t.links) &&
    Unlinked(u, t.pos, t.fill, t.links)
  }

  /** The last u of the slots pos .. fill - 1 carry no link. */
  ghost predicate Unlinked(u: nat, pos: nat, fill: nat, links: seq<nat>) {
    forall s :: pos <= s < fill && fill <= s + u ==> s < |links| && links[s] == NONE
  }

  /** A slot that carries a link lies more than u slots before fill. */
  lemma LinkedRoom(u: nat, pos: nat, fill: nat, links: seq<nat>, s: nat)
    requires Unlinked(u, pos, fill, links) && pos <= s < fill && s < |links| && links[s] != NONE
    ensures s + u < fill
  {
  }

  /** The byte values the encoder can send as literals: each of them fits in
      bits_caracter bits. */
  predicate Fits(p: Params, data: seq<byte>)
    requires Valid(p)
  {
    forall k :: 0 <= k < |data| ==> data[k] < Pow2(p.charBits)
  }

  /** The tokens sent so far replay to the first `at` input bytes, and each of them
      is one the decoder reads back as itself. */
  ghost predicate Encodes(p: Params, tokens: seq<Token>, data: seq<byte>, at: nat) {
    Valid(p) && at <= |data| && Replayable([], tokens) && Replay([], tokens) == data[..at] &&
    forall t :: 0 <= t < |tokens| ==> EncodableToken(p, tokens[t])
  }

  /** The bits sent are those of the tokens sent, and the tokens encode the first
      `at` input bytes. */
  ghost predicate Encoded(p: Params, sent: seq<bool>, tokens: seq<Token>, data: seq<byte>, at: nat) {
    Valid(p) && sent == TokensBits(p, tokens) && Encodes(p, tokens, data, at)
  }

  /** Sending the next input byte as a literal encodes one more byte. */
  lemma LiteralStep(p: Params, tokens: seq<Token>, data: seq<byte>, at: nat)
    requires Encodes(p, tokens, data, at) && at < |data| && data[at] < Pow2(p.charBits)
    ensures Encodes(p, tokens + [Literal(data[at])], data, at + 1)
    ensures TokensBits(p, tokens + [Literal(data[at])]) == TokensBits(p, tokens) + LiteralBits(p, data[at])
  {
    var t := Literal(data[at]);
    ReplayAppend([], tokens, t);
    TokensBitsAppend(p, tokens, t);
    LiteralExtends(data, at);
    assert forall u :: 0 <= u < |tokens| ==> (tokens + [t])[u] == tokens[u];
  }

  /** A literal holding the next input byte extends the replayed prefix by one. */
  lemma LiteralExtends(input: seq<byte>, at: nat)
    requires at < |input|
    ensures input[..at] + [input[at]] == input[..at + 1]
  {
    assert input[..at + 1][..at] == input[..at];
  }

  /** Sending a match whose bytes each repeat the byte dist positions earlier
      encodes its length more bytes. */
  lemma MatchStep(p: Params, tokens: seq<Token>, data: seq<byte>, at: nat, len: nat, dist: nat)
    requires Encodes(p, tokens, data, at)
    requires p.threshold < len <= Derive(p).maxMatch && 1 <= dist <= at && dist < Derive(p).dictSize
    requires at + len <= |data| && forall k :: at <= k < at + len ==> data[k] == data[k - dist]
    ensures Encodes(p, tokens + [Match(len, dist)], data, at + len)
    ensures TokensBits(p, tokens + [Match(len, dist)]) == TokensBits(p, tokens) + MatchBits(p, len, dist)
  {
    var t := Match(len, dist);
    MatchExtends(data, at, len, dist);
    ReplayAppend([], tokens, t);
    TokensBitsAppend(p, tokens, t);
    assert forall u :: 0 <= u < |tokens| ==> (tokens + [t])[u] == tokens[u];
  }

  /** A match the chain walk found at slot c for slot i, sent with the distance
      `(i - c) & (tam_diccionario - 1)`, repeats input bytes that lie within the
      window behind position base + i. */
  lemma WindowMatch(n: nat, db: nat, sector: nat, maxMatch: nat, base: int, fill: nat, lo: int,
                    win: seq<byte>, links: seq<nat>, hash: seq<nat>, input: seq<byte>,
                    i: nat, c: nat, len: nat, steps: nat) returns (dist: nat)
    requires 1 <= db <= 15 && n == Pow2(db) && n <= 0x8000
    requires 0 <= base && i < fill <= n && 0 <= lo <= base + i && base + fill - n <= lo
    requires WindowHolds(n, base, fill, win, input) && Mirrored(n, sector, maxMatch, win)
    requires ChainsValid(n, base, fill, lo, base + fill, links, hash)
    requires c != NONE && Reachable(links, i, c, steps)
    requires 1 <= len && i + len <= fill && len <= sector && len <= maxMatch && Agree(win, i, c, len)
    ensures dist == BitAnd((i - c) % 0x1_0000_0000, n - 1)
    ensures 1 <= dist <= base + i && dist < n && base + i + len <= |input|
    ensures forall k :: base + i <= k < base + i + len ==> input[k] == input[k - dist]
  {
    dist := BitAnd((i - c) % 0x1_0000_0000, n - 1);
    ReachableBehind(n, base, fill, lo, base + fill, links, hash, i, c, steps);
    Distance(n, db, base, fill, i, c);
    MatchSound(n, sector, maxMatch, base, fill, win, input, i, c, len, base + i - Off(n, base, fill, c));
  }

  /** A match the chain walk found for slot i of a parsed sector, sent with the
      distance `(i - c) & (tam_diccionario - 1)`, repeats input bytes that lie
      within the window behind position base + i. */
  lemma ParsedMatch(p: Params, t: Snapshot, input: seq<byte>, i: nat, c: nat, len: nat, dist: nat)
    requires Valid(p)
    requires Parsing(Derive(p).dictSize, Derive(p).sectorSize, Derive(p).maxMatch, p.threshold, t, input)
    requires t.pos <= i && 1 <= len && i + len <= t.fill && len <= Derive(p).maxMatch
    requires c < Derive(p).dictSize && Reachable(t.links, i, c, p.maxComparisons) && Agree(t.win, i, c, len)
    requires dist == BitAnd((i - c) % 0x1_0000_0000, Derive(p).dictSize - 1)
    ensures 1 <= dist <= t.base + i && dist < Derive(p).dictSize && t.base + i + len <= |input|
    ensures forall k :: t.base + i <= k < t.base + i + len ==> input[k] == input[k - dist]
  {
    var d := Derive(p);
    var n := d.dictSize;
    DerivedFacts(p);
    assert 1 <= p.dictBits <= 15 && n == Pow2(p.dictBits) && n <= 0x8000;
    assert WindowHolds(n, t.base, t.fill, t.win, input) && Mirrored(n, d.sectorSize, d.maxMatch, t.win) &&
           ChainsValid(n, t.base, t.fill, t.lo, t.base + t.fill, t.links, t.hash) &&
           0 <= t.base && t.fill <= n && 0 <= t.lo <= t.base + i && t.base + t.fill - n <= t.lo &&
           len <= d.sectorSize;
    var dist' := WindowMatch(n, p.dictBits, d.sectorSize, d.maxMatch, t.base, t.fill, t.lo,
                             t.win, t.links, t.hash, input, i, c, len, p.maxComparisons);
    assert dist' == dist;
    assert t.base + i + len <= |input|;
    assert forall k :: t.base + i <= k < t.base + i + len ==> input[k] == input[k - dist'];
  }

  /** A match the chain walk found for slot i of a parsed sector, as long as the
      bytes there and at slot c agree or shorter, sent with the distance
      `(i - c) & (tam_diccionario - 1)`, encodes len more input bytes. */
  lemma MatchEncodes(p: Params, t: Snapshot, input: seq<byte>, sent: seq<bool>, tokens: seq<Token>,
                     at: nat, i: nat, c: nat, len: nat, dist: nat)
    requires Encoded(p, sent, tokens, input, at)
    requires Parsing(Derive(p).dictSize, Derive(p).sectorSize, Derive(p).maxMatch, p.threshold, t, input)
    requires at == t.base + i && t.pos <= i
    requires p.threshold < len && i + len <= t.fill && len <= Derive(p).maxMatch
    requires c < Derive(p).dictSize && Reachable(t.links, i, c, p.maxComparisons)
    requires len <= Common(t.win, i, c, Derive(p).maxMatch)
    requires dist == BitAnd((i - c) % 0x1_0000_0000, Derive(p).dictSize - 1)
    ensures dist < Derive(p).dictSize
    ensures Encoded(p, sent + MatchBits(p, len, dist), tokens + [Match(len, dist)], input, at + len)
  {
    CommonAgrees(t.win, i, c, Derive(p).maxMatch);
    AgreePrefix(t.win, i, c, Common(t.win, i, c, Derive(p).maxMatch), len);
    ParsedMatch(p, t, input, i, c, len, dist);
    MatchStep(p, tokens, input, at, len, dist);
  }

  /** With the sector mask 2^16 - 2^bit_sector, the eviction test picks exactly
      the entries naming a slot of the sector at pos. */
  lemma EvictMeaning(n: nat, sb: nat, pos: nat, mask: nat, t: seq<nat>, t2: seq<nat>)
    requires sb <= 15 && n <= 0x8000 && pos + Pow2(sb) <= n && pos % Pow2(sb) == 0
    requires mask == 0x10000 - Pow2(sb) && InRange(n, t) && |t2| == |t|
    requires forall s :: 0 <= s < |t| ==> t2[s] == if BitAnd(t[s], mask) == pos then NONE else t[s]
    ensures forall s :: 0 <= s < |t| ==> t2[s] == if pos <= t[s] < pos + Pow2(sb) then NONE else t[s]
    ensures InRange(n, t2)
  {
    forall s | 0 <= s < |t|
      ensures t2[s] == if pos <= t[s] < pos + Pow2(sb) then NONE else t[s]
    {
      EvictTest(t[s], pos, sb, n);
    }
  }

  /** The oldest input position the chains may reach while the window cycle that
      starts at base is filled up to slot fill: nothing has been evicted in the
      first cycle, and later exactly one window lies behind slot fill. */
  function Oldest(n: nat, base: int, fill: nat): (r: int)
    ensures base == 0 ==> r == 0
    ensures base != 0 ==> r + n == base + fill
  {
    if base == 0 then 0 else base + fill - n
  }

  /** The cursor `posicion_diccionario` steps by whole sectors: the next slot is
      again a multiple of the sector size, and, short of the window's end, a
      whole sector still fits behind it. */
  lemma NextSector(a: nat, s: nat, n: nat)
    requires s >= 1 && a % s == 0 && n % s == 0 && a + s <= n
    ensures (a + s) % s == 0 && (a + s < n ==> a + s + s <= n)
  {
    DivModNat(a, s);
    DivModNat(n, s);
    var qa, qn := a / s, n / s;
    DivModUnique(a + s, s, qa + 1, 0);
    if a + s < n {
      if qn <= qa + 1 {
        MulMonotone(qn, qa + 1, s);
      }
      MulMonotone(qa + 2, qn, s);
    }
  }

  /** `EliminarDatos` at the start of a later cycle: once the entries that pass the
      eviction test are cleared, the chains reach one sector less far back and
      every entry is still NONE or a window slot. */
  lemma EvictedChains(n: nat, sb: nat, base: int, pos: nat,
                      links: seq<nat>, hash: seq<nat>, links2: seq<nat>, hash2: seq<nat>)
    requires sb <= 15 && n <= 0x8000 && pos + Pow2(sb) <= n && pos % Pow2(sb) == 0 && base >= n
    requires ChainsValid(n, base, pos, base + pos - n, base + pos, links, hash)
    requires InRange(n, links) && InRange(n, hash) && |links2| == |links| && |hash2| == |hash|
    requires forall s :: 0 <= s < |links| ==>
      links2[s] == if BitAnd(links[s], 0x10000 - Pow2(sb)) == pos then NONE else links[s]
    requires forall b :: 0 <= b < |hash| ==>
      hash2[b] == if BitAnd(hash[b], 0x10000 - Pow2(sb)) == pos then NONE else hash[b]
    ensures ChainsValid(n, base, pos, base + pos + Pow2(sb) - n, base + pos, links2, hash2)
    ensures InRange(n, links2) && InRange(n, hash2)
  {
    EvictMeaning(n, sb, pos, 0x10000 - Pow2(sb), links, links2);
    EvictMeaning(n, sb, pos, 0x10000 - Pow2(sb), hash, hash2);
    EvictKeepsChains(n, Pow2(sb), base, pos, links, hash, links2, hash2);
  }

  /** `EliminarDatos` keeps the tables holding the input, with the oldest
      reachable position moved a sector on. */
  lemma EvictedTables(n: nat, sb: nat, maxMatch: nat, base: int, pos: nat, lo: int, lo2: int, at: nat,
                      input: seq<byte>, win: seq<byte>,
                      links: seq<nat>, hash: seq<nat>, links2: seq<nat>, hash2: seq<nat>)
    requires sb <= 15 && n <= 0x8000 && pos + Pow2(sb) <= n && pos % Pow2(sb) == 0 && base >= n
    requires lo == base + pos - n && lo2 == lo + Pow2(sb) && at == base + pos
    requires TablesHold(n, Pow2(sb), maxMatch, base, pos, lo, at, input, win, links, hash)
    requires |links2| == |links| && |hash2| == |hash|
    requires forall s :: 0 <= s < |links| ==>
      links2[s] == if BitAnd(links[s], 0x10000 - Pow2(sb)) == pos then NONE else links[s]
    requires forall b :: 0 <= b < |hash| ==>
      hash2[b] == if BitAnd(hash[b], 0x10000 - Pow2(sb)) == pos then NONE else hash[b]
    ensures TablesHold(n, Pow2(sb), maxMatch, base, pos, lo2, at, input, win, links2, hash2)
  {
    EvictedChains(n, sb, base, pos, links, hash, links2, hash2);
  }

  /** `CargarDiccionario` keeps the mirror: loading at slot 0 copies the head
      behind the end, and loading further on changes neither the head nor the tail. */
  lemma LoadMirrors(n: nat, sector: nat, maxMatch: nat, pos: nat, win: seq<byte>, win2: seq<byte>)
    requires n + maxMatch <= |win2| == |win| && pos <= n
    requires pos == 0 ==> forall m :: 0 <= m < maxMatch ==> win2[n + m] == win2[m]
    requires pos > 0 ==> sector <= pos && Mirrored(n, sector, maxMatch, win)
    requires pos > 0 ==> forall v :: 0 <= v < pos || n <= v < |win| ==> win2[v] == win[v]
    ensures Mirrored(n, sector, maxMatch, win2)
  {
    if pos > 0 {
      forall m | 0 <= m < sector && m < maxMatch
        ensures win2[n + m] == win2[m]
      {
        assert win2[n + m] == win[n + m] && win2[m] == win[m];
      }
    }
  }

  /** Loading the next bytes of the input at slot pos and hashing them, from tables
      that describe the input before them, sets up the parse invariant for those
      bytes; every bucket head is still NONE or a window slot. */
  lemma SectorReady(n: nat, sector: nat, maxMatch: nat, u: nat, base: int, pos: nat, bytes: nat, lo: int,
                    links: seq<nat>, hash: seq<nat>, k: nat, keys: seq<nat>)
    requires 0 <= base && pos + sector <= n && 1 <= bytes <= sector
    requires 0 <= lo <= base + pos && base + pos + bytes - n <= lo
    requires ChainsValid(n, base, pos, lo, base + pos, links, hash) && InRange(n, links) && InRange(n, hash)
    requires k == (if bytes <= u then pos else pos + bytes - u) && k == pos + |keys|
    requires forall t :: 0 <= t < |keys| ==> keys[t] < |hash|
    ensures ChainsValid(n, base, pos + bytes, lo, base + (pos + bytes),
                        Insert(Clear(links, k, pos + bytes), hash, pos, keys).0,
                        Insert(Clear(links, k, pos + bytes), hash, pos, keys).1)
    ensures InRange(n, Insert(Clear(links, k, pos + bytes), hash, pos, keys).0)
    ensures InRange(n, Insert(Clear(links, k, pos + bytes), hash, pos, keys).1)
    ensures Unlinked(u, pos, pos + bytes, Insert(Clear(links, k, pos + bytes), hash, pos, keys).0)
  {
    LoadKeepsChains(n, base, pos, bytes, lo, links, hash);
    HashedChains(n, base, pos + bytes, lo, pos, k, links, hash, keys);
  }
  /** The parse invariant for tables L, H that are those the hashing produced. */
  lemma HashedParsing(n: nat, sector: nat, maxMatch: nat, u: nat, base: int, pos: nat, bytes: nat, lo: int,
                      win2: seq<byte>, links: seq<nat>, hash: seq<nat>, k: nat, keys: seq<nat>,
                      input: seq<byte>, L: seq<nat>, H: seq<nat>)
    requires pos + |keys| <= |links| && forall t :: 0 <= t < |keys| ==> keys[t] < |hash|
    requires 0 <= base && pos + sector <= n && 1 <= bytes <= sector
    requires 0 <= lo <= base + pos && base + pos + bytes - n <= lo
    requires Mirrored(n, sector, maxMatch, win2) && WindowHolds(n, base, pos + bytes, win2, input)
    requires ChainsValid(n, base, pos + bytes, lo, base + (pos + bytes),
                         Insert(Clear(links, k, pos + bytes), hash, pos, keys).0,
                         Insert(Clear(links, k, pos + bytes), hash, pos, keys).1)
    requires InRange(n, Insert(Clear(links, k, pos + bytes), hash, pos, keys).0)
    requires Unlinked(u, pos, pos + bytes, Insert(Clear(links, k, pos + bytes), hash, pos, keys).0)
    requires L == Insert(Clear(links, k, pos + bytes), hash, pos, keys).0
    requires H == Insert(Clear(links, k, pos + bytes), hash, pos, keys).1
    ensures Parsing(n, sector, maxMatch, u, Snapshot(base, pos, pos + bytes, lo, win2, L, H), input)
  {
  }

  /** `CargarDiccionario` and `HashearDatos` at slot pos, as values: from tables
      win, ls, hs that hold the input before position base + pos, the window win2
      with the next bytes loaded and the tables L, H hashed from it meet the
      parse invariant for those bytes, and every bucket head is still NONE or a
      window slot. */
  lemma LoadHashReady(p: Params, base: int, pos: nat, bytes: nat, lo: int, input: seq<byte>,
                      win: seq<byte>, ls: seq<nat>, hs: seq<nat>, win2: seq<byte>, L: seq<nat>, H: seq<nat>)
    requires Valid(p) && Fits(p, input)
    requires pos + Derive(p).sectorSize <= Derive(p).dictSize && (pos == 0 || Derive(p).sectorSize <= pos)
    requires 0 <= base && 1 <= bytes <= Derive(p).sectorSize && base + pos + bytes <= |input|
    requires 0 <= lo <= base + pos && base + pos + Derive(p).sectorSize - Derive(p).dictSize <= lo
    requires WindowHolds(Derive(p).dictSize, base, pos, win, input)
    requires (base > 0 || pos > 0) ==> Mirrored(Derive(p).dictSize, Derive(p).sectorSize, Derive(p).maxMatch, win)
    requires ChainsValid(Derive(p).dictSize, base, pos, lo, base + pos, ls, hs)
    requires InRange(Derive(p).dictSize, ls) && InRange(Derive(p).dictSize, hs) && |hs| == Derive(p).hashSize
    requires |win| == |win2| == Derive(p).dictSize + Derive(p).maxMatch
    requires forall v :: 0 <= v < Derive(p).dictSize ==>
      win2[v] == if pos <= v < pos + bytes then input[base + v] else win[v]
    requires pos == 0 ==> forall m :: 0 <= m < Derive(p).maxMatch ==> win2[Derive(p).dictSize + m] == win2[m]
    requires pos != 0 ==> forall v :: Derive(p).dictSize <= v < |win| ==> win2[v] == win[v]
    requires forall v :: pos <= v < pos + bytes ==> win2[v] < Pow2(p.charBits)
    requires L == Insert(Clear(ls, Unhashed(p, pos, bytes), pos + bytes), hs, pos,
                         Buckets(p, win2, pos, Unhashed(p, pos, bytes) - pos)).0
    requires H == Insert(Clear(ls, Unhashed(p, pos, bytes), pos + bytes), hs, pos,
                         Buckets(p, win2, pos, Unhashed(p, pos, bytes) - pos)).1
    ensures Parsing(Derive(p).dictSize, Derive(p).sectorSize, Derive(p).maxMatch, p.threshold,
                    Snapshot(base, pos, pos + bytes, lo, win2, L, H), input)
    ensures WindowHolds(Derive(p).dictSize, base, pos + bytes, win2, input)
    ensures Mirrored(Derive(p).dictSize, Derive(p).sectorSize, Derive(p).maxMatch, win2)
    ensures ChainsValid(Derive(p).dictSize, base, pos + bytes, lo, base + (pos + bytes), L, H)
    ensures InRange(Derive(p).dictSize, L) && InRange(Derive(p).dictSize, H)
  {
    DerivedFacts(p);
    LoadMirrors(Derive(p).dictSize, Derive(p).sectorSize, Derive(p).maxMatch, pos, win, win2);
    LoadKeepsWindow(Derive(p).dictSize, base, pos, bytes, win, win2, input);
    SectorReady(Derive(p).dictSize, Derive(p).sectorSize, Derive(p).maxMatch, p.threshold, base, pos, bytes, lo,
                ls, hs, Unhashed(p, pos, bytes), Buckets(p, win2, pos, Unhashed(p, pos, bytes) - pos));
    HashedParsing(Derive(p).dictSize, Derive(p).sectorSize, Derive(p).maxMatch, p.threshold, base, pos, bytes, lo,
                  win2, ls, hs, Unhashed(p, pos, bytes), Buckets(p, win2, pos, Unhashed(p, pos, bytes) - pos), input, L, H);
  }

  /** A bit string padded with zero bits up to the next byte boundary. */
  function Padded(bits: seq<bool>): (r: seq<bool>)
    ensures |r| % 8 == 0 && |bits| <= |r| < |bits| + 8 && r[..|bits|] == bits
  {
    var pad := (8 - |bits| % 8) % 8;
    assert (bits + Zeros(pad))[..|bits|] == bits;
    bits + Zeros(pad)
  }

  /** The encoder's complete output stream: the tokens, the end marker, then zero
      bits up to the next byte boundary. */
  function PaddedStream(p: Params, ts: seq<Token>): seq<bool>
    requires Valid(p)
  {
    Padded(TokensBits(p, ts) + TokenBits(p, End))
  }

  /** With count bits pending, padding the bits sent appends 8 - count zero bits:
      exactly what the flush of `CodificarBuffer` sends. */
  lemma PadPending(out: seq<byte>, cap: nat, buffer: nat, count: nat, sent: seq<bool>)
    requires Buffered(out, cap, buffer, count, sent) && count > 0
    ensures Padded(sent) == sent + NatBits(0, 8 - count)
  {
    DivModUnique(|sent|, 8, |out|, count);
  }

  /** Once the bits sent fill whole bytes, nothing is pending: the output holds
      exactly those bits, and padding adds nothing. */
  lemma PadFlushed(out: seq<byte>, cap: nat, buffer: nat, count: nat, sent: seq<bool>)
    requires Buffered(out, cap, buffer, count, sent) && |sent| % 8 == 0
    ensures count == 0 && BytesToBits(out) == sent && Padded(sent) == sent
  {
    DivModUnique(|sent|, 8, |out|, count);
    assert sent + Zeros(0) == sent;
  }
}

/** The codec's state and routines. The C code keeps its state in globals shared
    by the encoder and the decoder; here they are the fields of one session. */
module Codec {
  import opened Bitwise
  import opened BitStream
  import opened Lz77Params
  import opened Tokens
  import opened History
  import opened DecoderSpec
  import opened EncoderSpec

  class Session {
    const p: Params
    const d: Derived
    /** `diccionario`: the window and, behind it, room for a match running off its end. */
    const dict: array<byte>
    /** `hash`: the head slot of each bucket. */
    const hash: array<nat>
    /** `siguiente_enlace`: for each window slot, the previous slot of its bucket. */
    const links: array<nat>

    var bufferBits: nat   // `buffer_bits`
    var bitsIn: nat       // `bits_en`
    var input: seq<byte>  // `in_ptr[0 .. in_size)`
    var inPos: nat        // `in_pos`
    var out: seq<byte>    // `out_ptr[0 .. out_pos)`
    var outCap: nat       // `out_capacity`
    var matchLen: nat     // `longitud_coincidencia`
    var matchPos: nat     // `posicion_coincidencia`

    /** Every bit handed to SendBits so far. */
    ghost var sent: seq<bool>
    /** The tokens the encoder has sent so far. */
    ghost var tokens: seq<Token>

    ghost predicate Ready() {
      Allocated(p, d, dict.Length, hash.Length, links.Length) && hash != links
    }

    constructor (p: Params)
      requires Valid(p)
      ensures Ready() && this.p == p
    {
      this.p := p;
      var d := Derive(p);
      this.d := d;
      dict := new byte[d.dictSize + d.maxMatch];
      hash := new nat[d.hashSize];
      links := new nat[d.dictSize];
    }

    /** The pending bits and the written bytes together are exactly the bits sent. */
    ghost predicate Writing()
      reads this`bufferBits, this`bitsIn, this`out, this`outCap, this`sent
    {
      Buffered(out, outCap, bufferBits, bitsIn, sent)
    }

    /** `EnviarBits`: append the low w bits of v to the output, least-significant
        first, writing out every completed byte. It fails, as the C code exits,
        when a completed byte finds the output full. */
    method SendBits(v: nat, w: nat) returns (ok: bool)
      requires Writing() && w <= 16 && v < Pow2(w)
      modifies this`bufferBits, this`bitsIn, this`out, this`sent
      ensures sent == old(sent) + NatBits(v, w)
      ensures ok <==> |sent| < 8 * (outCap + 1)
      ensures ok ==> Writing()
    {
      sent := sent + NatBits(v, w);
      // `buffer_bits |= bits << bits_en`: the pending bits lie below bit bits_en,
      // so the OR is a sum.
      PushField(out, bufferBits, bitsIn, v, w);
      var buf: nat, n: nat, o: seq<byte> := bufferBits + v * Pow2(bitsIn), bitsIn + w, out;
      while n >= 8
        invariant buf < Pow2(n) && |o| <= outCap
        invariant BytesToBits(o) + NatBits(buf, n) == sent == old(sent) + NatBits(v, w)
        decreases n
      {
        if |o| >= outCap {
          return false;
        }
        // `buffer_bits & 0xFF`, then `buffer_bits >>= 8`.
        AndByte(buf);
        FlushByte(o, buf, n);
        o := o + [BitAnd(buf, 0xFF)];
        buf := buf / 256;
        n := n - 8;
      }
      bufferBits, bitsIn, out := buf, n, o;
      ok := true;
    }

    /** The bits the decoder has still to read: the pending ones, then the unread bytes. */
    function Remaining(): seq<bool>
      reads this`bufferBits, this`bitsIn, this`input, this`inPos
    {
      NatBits(bufferBits, bitsIn) + (if inPos <= |input| then BytesToBits(input[inPos..]) else [])
    }

    ghost predicate Reading()
      reads this`bufferBits, this`bitsIn, this`input, this`inPos
    {
      inPos <= |input| && bitsIn < 8 && bufferBits < Pow2(bitsIn)
    }

    /** `LeerBits`: take the next w bits, least-significant first, fetching input
        bytes while fewer than w bits are pending. It fails, as the C code exits,
        when the input runs out first. */
    method ReadBits(w: nat) returns (ok: bool, v: nat)
      requires Reading() && 1 <= w <= 16
      modifies this`bufferBits, this`bitsIn, this`inPos
      ensures ok <==> ReadField(old(Remaining()), w).Some?
      ensures ok ==> Reading() && ReadField(old(Remaining()), w) == Some((v, Remaining()))
    {
      ghost var r0 := Remaining();
      var buf: nat, n: nat, at: nat := bufferBits, bitsIn, inPos;
      while n < w && at < |input|
        invariant at <= |input| && buf < Pow2(n) && n < w + 8
        invariant NatBits(buf, n) + BytesToBits(input[at..]) == r0
        decreases w - n
      {
        // `buffer_bits |= in_ptr[in_pos++] << bits_en`
        FetchStep(buf, n, input, at);
        buf := buf + input[at] * Pow2(n);
        at := at + 1;
        n := n + 8;
      }
      if n < w {
        assert |r0| == n;
        ok, v := false, 0;
      } else {
        // `mascaras[num_bits]` is 2^num_bits - 1.
        TakeStep(buf, n, w, BytesToBits(input[at..]));
        v := BitAnd(buf, Pow2(w) - 1);
        bufferBits, bitsIn, inPos := buf / Pow2(w), n - w, at;
        assert ReadField(r0, w) == Some((v, Remaining()));
        ok := true;
      }
    }

    /** `EnviarCoincidencia`: a match token. */
    method SendMatch(length: nat, distance: nat) returns (ok: bool)
      requires Ready() && Writing()
      requires p.threshold < length <= d.maxMatch + 1 && distance < d.dictSize
      modifies this`bufferBits, this`bitsIn, this`out, this`sent
      ensures ok ==> Writing() && sent == old(sent) + MatchBits(p, length, distance)
      ensures !ok ==> 8 * (outCap + 1) <= |sent|
    {
      ghost var s0 := sent;
      var f: nat := length - (p.threshold + 1);
      assert Pow2(1) == 2;
      assert f < Pow2(p.lengthBits);
      ok := SendBits(1, 1);
      if ok {
        ghost var s1 := sent;
        ok := SendBits(f, p.lengthBits);
        if ok {
          ghost var s2 := sent;
          ok := SendBits(distance, p.dictBits);
          MatchFieldsAppend(p, length, distance, s0, s1, s2, sent);
        }
      }
    }

    /** `EnviarCaracter`: a literal token. */
    method SendLiteral(c: nat) returns (ok: bool)
      requires Ready() && Writing() && c < Pow2(p.charBits)
      modifies this`bufferBits, this`bitsIn, this`out, this`sent
      ensures ok ==> Writing() && sent == old(sent) + LiteralBits(p, c)
      ensures !ok ==> 8 * (outCap + 1) <= |sent|
    {
      ghost var s0 := sent;
      assert Pow2(1) == 2;
      ok := SendBits(0, 1);
      if ok {
        ghost var s1 := sent;
        ok := SendBits(c, p.charBits);
        assert sent == s0 + LiteralBits(p, c);
      }
    }

    /** `InicializarCodificacion`: no pending bits, and every bucket head and every
        link NONE. */
    method InitEncoder()
      requires Ready()
      modifies this`bufferBits, this`bitsIn, hash, links
      ensures bufferBits == 0 && bitsIn == 0
      ensures forall b :: 0 <= b < hash.Length ==> hash[b] == NONE
      ensures forall s :: 0 <= s < links.Length ==> links[s] == NONE
    {
      bufferBits, bitsIn := 0, 0;
      for b := 0 to hash.Length
        invariant bufferBits == 0 && bitsIn == 0
        invariant forall b' :: 0 <= b' < b ==> hash[b'] == NONE
      {
        hash[b] := NONE;
      }
      for s := 0 to links.Length
        invariant bufferBits == 0 && bitsIn == 0
        invariant forall s' :: 0 <= s' < s ==> links[s'] == NONE
        invariant forall b :: 0 <= b < hash.Length ==> hash[b] == NONE
      {
        links[s] := NONE;
      }
    }

    /** `CargarDiccionario`: copy the next sector of input, or what is left of the
        input when less than a sector is, into the window at slot pos. Loading
        into slot 0 also copies the window's first max_coincidencia bytes behind
        its end, so that a match may run past the last slot. The result is the
        number of bytes copied; 0 means the input is exhausted. */
    method LoadSector(pos: nat) returns (bytes: nat)
      requires Ready() && pos + d.sectorSize <= d.dictSize && inPos <= |input|
      modifies this`inPos, dict
      ensures bytes == if old(inPos) + d.sectorSize <= |input| then d.sectorSize else |input| - old(inPos)
      ensures inPos == old(inPos) + bytes
      ensures forall v :: 0 <= v < d.dictSize ==>
        dict[v] == if pos <= v < pos + bytes then input[old(inPos) + v - pos] else old(dict[v])
      ensures bytes > 0 && pos == 0 ==> forall m :: 0 <= m < d.maxMatch ==> dict[d.dictSize + m] == dict[m]
      ensures !(bytes > 0 && pos == 0) ==>
        forall v :: d.dictSize <= v < dict.Length ==> dict[v] == old(dict[v])
    {
      DerivedFacts(p);
      bytes := if inPos + d.sectorSize <= |input| then d.sectorSize else |input| - inPos;
      if bytes == 0 {
        return;
      }
      var at := inPos;
      forall v | pos <= v < pos + bytes {
        dict[v] := input[at + v - pos];
      }
      inPos := inPos + bytes;
      if pos == 0 {
        var n := d.dictSize;
        forall m | 0 <= m < d.maxMatch {
          dict[n + m] := dict[m];
        }
      }
    }

    /** `EliminarDatos`: set to NONE every link and every bucket head whose value,
        masked with mascara_sector, equals pos, and leave every other entry alone. */
    method EvictSector(pos: nat)
      requires Ready()
      modifies links, hash
      ensures forall s :: 0 <= s < links.Length ==>
        links[s] == if BitAnd(old(links[s]), d.sectorMask) == pos then NONE else old(links[s])
      ensures forall b :: 0 <= b < hash.Length ==>
        hash[b] == if BitAnd(old(hash[b]), d.sectorMask) == pos then NONE else old(hash[b])
    {
      EvictEntries(links, pos);
      EvictEntries(hash, pos);
    }

    /** One loop of `EliminarDatos`, over the link table or the hash table. */
    method EvictEntries(t: array<nat>, pos: nat)
      modifies t
      ensures forall s :: 0 <= s < t.Length ==>
        t[s] == if BitAnd(old(t[s]), d.sectorMask) == pos then NONE else old(t[s])
    {
      for s := 0 to t.Length
        invariant forall s' :: 0 <= s' < t.Length ==>
          t[s'] == if s' < s && BitAnd(old(t[s']), d.sectorMask) == pos then NONE else old(t[s'])
      {
        if BitAnd(t[s], d.sectorMask) == pos {
          t[s] := NONE;
        }
      }
    }

    /** `HashearDatos`: the last umbral slots of the bytes just loaded at pos (all
        of them, when there are no more) get no link; every earlier slot, in
        increasing order, is linked to the head of its rolling-hash bucket and
        becomes that head. */
    method HashSector(pos: nat, bytes: nat)
      requires Ready() && 1 <= bytes && pos + bytes <= d.dictSize
      requires forall v :: pos <= v < pos + bytes ==> dict[v] < Pow2(p.charBits)
      modifies links, hash
      ensures links[..] == Insert(Clear(old(links[..]), Unhashed(p, pos, bytes), pos + bytes), old(hash[..]), pos,
                                  Buckets(p, dict[..], pos, Unhashed(p, pos, bytes) - pos)).0
      ensures hash[..] == Insert(Clear(old(links[..]), Unhashed(p, pos, bytes), pos + bytes), old(hash[..]), pos,
                                 Buckets(p, dict[..], pos, Unhashed(p, pos, bytes) - pos)).1
    {
      DerivedFacts(p);
      var u := p.threshold;
      if bytes <= u {
        ClearLinks(pos, pos + bytes);
      } else {
        var k := pos + bytes - u;
        ClearLinks(k, pos + bytes);
        Pow2Monotone(p.charBits, p.hashBits);
        // `(diccionario[posicion] << bits_desplazamiento) ^ diccionario[posicion + 1]`
        var j := Xor(Shl(dict[pos], d.hashShift), dict[pos + 1]);
        HashSlots(dict, links, hash, pos, k, j, d.hashShift, d.hashSize - 1, p.hashBits, u);
      }
    }

    /** The links of slots a .. b - 1 become NONE. */
    method ClearLinks(a: nat, b: nat)
      requires Ready() && a <= b <= links.Length
      modifies links
      ensures links[..] == Clear(old(links[..]), a, b)
    {
      ghost var links0 := links[..];
      for s := a to b
        invariant links[..] == Clear(links0, a, s)
      {
        links[s] := NONE;
        assert links[..] == Clear(links0, a, s + 1);
      }
    }

    /** The hashing loop of `HashearDatos`: slots pos .. k - 1 of window w join,
        in order, the buckets the rolling hash gives them, starting from the
        value j; each slot's link becomes its bucket's head, and the slot the
        new head. */
    method HashSlots(w: array<byte>, t: array<nat>, heads: array<nat>,
                     pos: nat, k: nat, j: nat, s: nat, mask: nat, hb: nat, u: nat)
      requires pos < k && k + u <= w.Length && k <= t.Length && t != heads
      requires heads.Length == Pow2(hb) && mask == Pow2(hb) - 1
      requires forall v :: pos + u <= v < k + u ==> w[v] < Pow2(hb)
      modifies t, heads
      ensures Below(Roll(w[..], pos, k - pos, j, s, mask, u), heads.Length)
      ensures (t[..], heads[..]) == Insert(old(t[..]), old(heads[..]), pos, Roll(w[..], pos, k - pos, j, s, mask, u))
    {
      ghost var win := w[..];
      RollBound(win, pos, k - pos, j, s, hb, u);
      ghost var goal := Insert(t[..], heads[..], pos, Roll(win, pos, k - pos, j, s, mask, u));
      var h := j;
      for i: nat := pos to k
        invariant Below(Roll(win, i, k - i, h, s, mask, u), heads.Length)
        invariant Insert(t[..], heads[..], i, Roll(win, i, k - i, h, s, mask, u)) == goal
      {
        ghost var l0: seq<nat>, h0: seq<nat> := t[..], heads[..];
        RollInsert(win, i, k, h, s, hb, u, l0, h0, goal);
        h := Xor(BitAnd(Shl(h, s), mask), w[i + u]);
        t[i] := heads[h];
        heads[h] := i;
        assert t[..] == l0[i := h0[h]];
        assert heads[..] == h0[h := i];
      }
    }

    /** The comparison loop of `EncontrarCoincidencia`: how many of the m bytes
        at slots a.. and b.. of window w agree. */
    method CommonLength(w: array<byte>, a: nat, b: nat, m: nat) returns (j: nat)
      requires a + m <= w.Length && b + m <= w.Length
      ensures j == Common(w[..], a, b, m)
    {
      j := 0;
      while j < m
        invariant j <= m
        invariant Common(w[..], a, b, m) == j + Common(w[..], a + j, b + j, m - j)
        decreases m - j
      {
        if w[a + j] != w[b + j] {
          break;
        }
        j := j + 1;
      }
    }

    /** One candidate of `EncontrarCoincidencia`'s walk: the byte just past the
        best length so far is tested first, and only when it agrees are the
        whole m bytes compared. The result is the longer of len and the
        candidate's match. */
    method Candidate(w: array<byte>, pos: nat, c: nat, len: nat, l: byte, m: nat) returns (j: nat)
      requires pos + m <= w.Length && c + m <= w.Length && len <= m
      requires pos + len < w.Length && c + len < w.Length && l == w[pos + len]
      ensures j == if Common(w[..], pos, c, m) > len then Common(w[..], pos, c, m) else len
    {
      j := len;
      if w[c + len] == l {
        var k := CommonLength(w, pos, c, m);
        if k > len {
          j := k;
        }
      } else if len < m {
        CommonBelow(w[..], pos, c, m, len);
      }
    }

    /** `EncontrarCoincidencia`: walk at most max_comparaciones links of the chain
        of slot pos, looking for a longer match than init. The longest sits in
        matchLen at the end, and the slot where it starts in matchPos; no slot the
        walk could reach matches longer, and when nothing beat init, matchPos is
        left alone. Only a strictly longer match replaces the best, so among slots
        of the best length the first on the chain wins; at is its link count. */
    method FindMatch(pos: nat, init: nat) returns (ghost at: nat)
      requires Ready() && pos < d.dictSize && init <= d.maxMatch && InRange(d.dictSize, links[..])
      modifies this`matchLen, this`matchPos
      ensures init <= matchLen <= d.maxMatch
      ensures matchLen == init ==> matchPos == old(matchPos)
      ensures matchLen > init ==>
        matchPos < d.dictSize && links[pos] != NONE &&
        Reachable(links[..], pos, matchPos, p.maxComparisons) &&
        matchLen == Common(dict[..], pos, matchPos, d.maxMatch)
      ensures matchLen > init ==>
        1 <= at <= p.maxComparisons && matchPos == Follow(links[..], pos, at) &&
        forall k :: 1 <= k < at && Follow(links[..], pos, k) != NONE ==>
          Common(dict[..], pos, Follow(links[..], pos, k), d.maxMatch) < matchLen
      ensures forall k :: 1 <= k <= p.maxComparisons && Follow(links[..], pos, k) != NONE ==>
        Common(dict[..], pos, Follow(links[..], pos, k), d.maxMatch) <= matchLen
    {
      WindowBound(p);
      var len, best;
      len, best, at := Walk(dict, links, pos, init, matchPos, d.maxMatch, p.maxComparisons);
      if len > init {
        FollowStarts(links[..], pos, at);
        FirstLongestMeans(dict[..], links[..], pos, at, d.maxMatch, len);
      }
      LongestMeans(dict[..], links[..], pos, p.maxComparisons, d.maxMatch, len);
      matchLen, matchPos := len, best;
    }

    /** The walk of `EncontrarCoincidencia` along the chain of slot pos of window
        w, whose links are t, for at most mc links: the best length found, the
        slot where it starts (best0 when nothing beat init) and how many links
        from pos that slot lies. Every slot fewer links away matches fewer bytes. A byte test after the best length is made first
        and the walk stops once a match of m bytes is found. */
    method Walk(w: array<byte>, t: array<nat>, pos: nat, init: nat, best0: nat, m: nat, mc: nat)
      returns (len: nat, best: nat, ghost at: nat)
      requires t.Length <= NONE && pos < t.Length && t.Length + m <= w.Length && init <= m && 1 <= mc
      requires InRange(t.Length, t[..])
      ensures init <= len <= m
      ensures len == init ==> best == best0
      ensures len > init ==>
        1 <= at <= mc && best == Follow(t[..], pos, at) && best < t.Length && len == Common(w[..], pos, best, m)
      ensures len > init ==> FirstLongest(w[..], t[..], pos, at, m, len)
      ensures Longest(w[..], t[..], pos, mc, m, len)
    {
      len, best, at := init, best0, 0;
      var l := w[pos + len];
      // The do-while loop of the C code, with its three exits in the guard: the
      // chain ends, a match of m bytes is found, or mc links have been tested.
      var i := t[pos];
      var k: nat := mc;
      var full := false;
      ghost var done: nat := 0;
      ghost var ws, ts := w[..], t[..];
      while k > 0 && !full && i != NONE
        invariant done + k == mc
        invariant k > 0 && !full ==> i == Follow(ts, pos, done + 1) && (i == NONE || i < t.Length)
        invariant init <= len <= m && (!full ==> l == w[pos + len]) && (full ==> len == m)
        invariant len == init ==> best == best0
        invariant len > init ==>
          1 <= at <= done && best == Follow(ts, pos, at) && best < t.Length && len == Common(ws, pos, best, m) &&
          FirstLongest(ws, ts, pos, at, m, len)
        invariant Longest(ws, ts, pos, done, m, len)
        decreases k
      {
        var j := Candidate(w, pos, i, len, l, m);
        LongestNext(ws, ts, pos, done, m, len, j);
        done := done + 1;
        if j > len {
          // Strictly longer only: every earlier link matched at most len bytes.
          LongestBelow(ws, ts, pos, done - 1, m, len, j);
          len, best, at := j, i, done;
          full := len == m;
          if !full {
            l := w[pos + len];
          }
        }
        k := k - 1;
        if k > 0 && !full {
          i := t[i];
        }
      }
      if full {
        LongestFull(ws, ts, pos, mc, m);
      } else if k > 0 {
        LongestNext(ws, ts, pos, done, m, len, len);
        LongestEnd(ws, ts, pos, done + 1, mc, m, len);
      }
    }

    /** The encoder's output invariant: the bits sent so far are those of the tokens
        sent so far, and those tokens encode the first `at` input bytes. */
    ghost predicate Emitted(at: nat)
      reads this`bufferBits, this`bitsIn, this`out, this`outCap, this`sent, this`tokens, this`input
    {
      Writing() && Encoded(p, sent, tokens, input, at)
    }

    /** The tables are those of snapshot t, which meets the parse invariant. */
    ghost predicate Sound(t: Snapshot)
      reads this`input, dict, links, hash
    {
      match t case Snapshot(_, _, _, _, win, ls, hs) =>
      Ready() && dict[..] == win && links[..] == ls && hash[..] == hs && Fits(p, input) &&
      Parsing(Derive(p).dictSize, Derive(p).sectorSize, Derive(p).maxMatch, p.threshold, t, input)
    }

    /** A turn of the parse at window slot i with j of the bytes of snapshot t
        left: slot i holds input byte at, and the tokens sent encode the input
        before it. */
    ghost predicate Turn(t: Snapshot, i: nat, j: nat, at: nat)
      reads this`bufferBits, this`bitsIn, this`out, this`outCap, this`sent, this`tokens, this`input, dict, links, hash
    {
      match t case Snapshot(base, pos, fill, _, _, _, _) =>
        Sound(t) && at == base + i && Emitted(at) && pos <= i && 1 <= j && i + j == fill
    }

    /** `EnviarCaracter(diccionario[i++]); j--;` in the parse: window slot i0,
        which holds input byte at0, goes out as a literal, and the tokens sent
        encode one more input byte. */
    method PutLiteral(i0: nat, j0: nat, ghost at0: nat, ghost t: Snapshot)
      returns (ok: bool, i: nat, j: nat, ghost at: nat)
      requires Turn(t, i0, j0, at0)
      modifies this`bufferBits, this`bitsIn, this`out, this`sent, this`tokens
      ensures i == i0 + 1 && j == j0 - 1 && at == at0 + 1
      ensures tokens == old(tokens) + [Literal(dict[i0])]
      ensures ok ==> Emitted(at)
      ensures !ok ==> 8 * (outCap + 1) <= |sent|
    {
      WindowByte(d.dictSize, t.base, t.fill, t.win, input, i0);
      LiteralStep(p, tokens, input, at0);
      ok := SendLiteral(dict[i0]);
      tokens := tokens + [Literal(dict[i0])];
      i, j, at := i0 + 1, j0 - 1, at0 + 1;
    }

    /** `EnviarCoincidencia(len, (i - c) & (tam_diccionario - 1)); i += len;
        j -= len;` in the parse: slot i0 agrees with slot c, found on the chain
        of i0, for at least len bytes, so the match token with that distance,
        returned as dist, encodes len more input bytes. */
    method PutMatch(i0: nat, j0: nat, len: nat, c: nat, ghost at0: nat, ghost t: Snapshot)
      returns (ok: bool, i: nat, j: nat, ghost at: nat, dist: nat)
      requires Turn(t, i0, j0, at0)
      requires p.threshold < len <= j0 && len <= d.maxMatch
      requires c < d.dictSize && Reachable(t.links, i0, c, p.maxComparisons)
      requires len <= Common(t.win, i0, c, d.maxMatch)
      modifies this`bufferBits, this`bitsIn, this`out, this`sent, this`tokens
      ensures i == i0 + len && j == j0 - len && at == at0 + len
      ensures dist == BitAnd((i0 - c) % 0x1_0000_0000, Derive(p).dictSize - 1)
      ensures tokens == old(tokens) + [Match(len, dist)]
      ensures ok ==> Emitted(at)
      ensures !ok ==> 8 * (outCap + 1) <= |sent|
    {
      dist := MatchDistance(i0, c, len, at0, t, input, sent, tokens);
      ghost var ts := tokens + [Match(len, dist)];
      ok := SendMatch(len, dist);
      tokens := ts;
      i, j, at := i0 + len, j0 - len, at0 + len;
    }

    /** `(i - c) & (tam_diccionario - 1)`, the distance of the match PutMatch
        sends from slot i0 back to slot c, in unsigned 32-bit arithmetic: it
        lies inside the window, and the match token with it encodes len more
        bytes of data after the at0 that tokens ts encode. */
    method MatchDistance(i0: nat, c: nat, len: nat, ghost at0: nat, ghost t: Snapshot,
                         ghost data: seq<byte>, ghost s: seq<bool>, ghost ts: seq<Token>) returns (dist: nat)
      requires Valid(p) && Encoded(p, s, ts, data, at0)
      requires Parsing(Derive(p).dictSize, Derive(p).sectorSize, Derive(p).maxMatch, p.threshold, t, data)
      requires at0 == t.base + i0 && t.pos <= i0
      requires p.threshold < len && i0 + len <= t.fill && len <= Derive(p).maxMatch
      requires c < Derive(p).dictSize && Reachable(t.links, i0, c, p.maxComparisons)
      requires len <= Common(t.win, i0, c, Derive(p).maxMatch)
      ensures dist == BitAnd((i0 - c) % 0x1_0000_0000, Derive(p).dictSize - 1) && dist < Derive(p).dictSize
      ensures Encoded(p, s + MatchBits(p, len, dist), ts + [Match(len, dist)], data, at0 + len)
    {
      dist := BitAnd((i0 - c) % 0x1_0000_0000, Derive(p).dictSize - 1);
      MatchEncodes(p, t, data, s, ts, at0, i0, c, len, dist);
    }

    /** The greedy parse of `BuscarEnDiccionario` over the bytes of snapshot t:
        one greedy turn per slot reached, until no byte is left. */
    method GreedyParse(pos: nat, bytes: nat, ghost t: Snapshot) returns (ok: bool)
      requires Sound(t) && t.pos == pos && t.fill == pos + bytes && Emitted(t.base + pos)
      modifies this`matchLen, this`matchPos, this`bufferBits, this`bitsIn, this`out, this`sent, this`tokens
      ensures ok ==> Emitted(t.base + pos + bytes)
      ensures !ok ==> 8 * (outCap + 1) <= |sent|
    {
      var i: nat, j: nat := pos, bytes;
      ghost var at: nat := t.base + pos;
      ok := true;
      while j > 0 && ok
        invariant pos <= i && i + j == pos + bytes && at == t.base + i && Sound(t)
        invariant ok ==> Emitted(at)
        invariant !ok ==> 8 * (outCap + 1) <= |sent|
        decreases j
      {
        ok, i, j, at := GreedyStep(i, j, at, t);
      }
    }

    /** One turn of the greedy loop at slot i0 with j0 bytes left: the longest
        match found, cut to j0, goes out when it is longer than umbral, the
        slot's byte as a literal otherwise. */
    method GreedyStep(i0: nat, j0: nat, ghost at0: nat, ghost t: Snapshot)
      returns (ok: bool, i: nat, j: nat, ghost at: nat)
      requires Turn(t, i0, j0, at0)
      modifies this`matchLen, this`matchPos, this`bufferBits, this`bitsIn, this`out, this`sent, this`tokens
      ensures t.pos <= i && i + j == i0 + j0 && j < j0 && at == t.base + i
      ensures ok ==> Emitted(at)
      ensures !ok ==> 8 * (outCap + 1) <= |sent|
    {
      ghost var found := FindMatch(i0, p.threshold);
      var len: nat, pos: nat := if matchLen > j0 then j0 else matchLen, matchPos;
      matchLen := len;
      if len > p.threshold {
        var dist: nat;
        ok, i, j, at, dist := PutMatch(i0, j0, len, pos, at0, t);
      } else {
        ok, i, j, at := PutLiteral(i0, j0, at0, t);
      }
    }

    /** The lazy parse (`codicia == 0`) of `BuscarEnDiccionario` over the bytes of
        snapshot t: one lazy turn per slot reached, until no byte is left. */
    method LazyParse(pos: nat, bytes: nat, ghost t: Snapshot) returns (ok: bool)
      requires Sound(t) && t.pos == pos && t.fill == pos + bytes && Emitted(t.base + pos)
      modifies this`matchLen, this`matchPos, this`bufferBits, this`bitsIn, this`out, this`sent, this`tokens
      ensures ok ==> Emitted(t.base + pos + bytes)
      ensures !ok ==> 8 * (outCap + 1) <= |sent|
    {
      var i: nat, j: nat := pos, bytes;
      ghost var at: nat := t.base + pos;
      ok := true;
      while j > 0 && ok
        invariant pos <= i && i + j == pos + bytes && at == t.base + i && Sound(t)
        invariant ok ==> Emitted(at)
        invariant !ok ==> 8 * (outCap + 1) <= |sent|
        decreases j
      {
        ok, i, j, at := LazyStep(i, j, at, t);
      }
    }

    /** One turn of the lazy loop at slot i0 with j0 bytes left: a match longer
        than umbral starts a lazy match, anything else sends the slot's byte. */
    method LazyStep(i0: nat, j0: nat, ghost at0: nat, ghost t: Snapshot)
      returns (ok: bool, i: nat, j: nat, ghost at: nat)
      requires Turn(t, i0, j0, at0)
      modifies this`matchLen, this`matchPos, this`bufferBits, this`bitsIn, this`out, this`sent, this`tokens
      ensures t.pos <= i && i + j == i0 + j0 && j < j0 && at == t.base + i
      ensures ok ==> Emitted(at)
      ensures !ok ==> 8 * (outCap + 1) <= |sent|
    {
      ghost var found := FindMatch(i0, p.threshold);
      if matchLen > p.threshold {
        ok, i, j, at := LazyMatch(i0, j0, at0, t);
      } else {
        ok, i, j, at := PutLiteral(i0, j0, at0, t);
      }
    }

    /** The lazy parse's candidate at slot i of snapshot t: the slot has a link,
        and slot c, on its chain, agrees with it for len bytes, more than umbral. */
    ghost predicate Lead(t: Snapshot, i: nat, len: nat, c: nat) {
      match t case Snapshot(_, _, _, _, win, ls, _) =>
        Valid(p) && i < |ls| && ls[i] != NONE && c < d.dictSize && p.threshold < len &&
        Reachable(ls, i, c, p.maxComparisons) && len == Common(win, i, c, d.maxMatch)
    }

    /** The inner `for (;;)` of the lazy parse, entered with the match found at
        slot i0: while the next slot has a longer match, the current slot goes out
        as a literal and the next slot's match becomes the candidate; otherwise
        the candidate, cut to the bytes left, goes out. */
    method LazyMatch(i0: nat, j0: nat, ghost at0: nat, ghost t: Snapshot)
      returns (ok: bool, i: nat, j: nat, ghost at: nat)
      requires Turn(t, i0, j0, at0) && Lead(t, i0, matchLen, matchPos)
      modifies this`matchLen, this`matchPos, this`bufferBits, this`bitsIn, this`out, this`sent, this`tokens
      ensures t.pos <= i && i + j == i0 + j0 && j < j0 && at == t.base + i
      ensures ok ==> Emitted(at)
      ensures !ok ==> 8 * (outCap + 1) <= |sent|
    {
      i, j, at := i0, j0, at0;
      var len1: nat, pos1: nat := matchLen, matchPos;
      var more := true;
      ok := true;
      while more && ok
        invariant t.pos <= i && i + j == t.fill && at == t.base + i && Sound(t)
        invariant j < j0 || (j == j0 && more && ok)
        invariant more ==> 1 <= j
        invariant ok ==> Emitted(at)
        invariant !ok ==> 8 * (outCap + 1) <= |sent|
        invariant more ==> Lead(t, i, len1, pos1)
        decreases j, more
      {
        more, ok, i, j, at, len1, pos1 := LazyTurn(i, j, at, len1, pos1, t);
      }
    }

    /** One pass of the lazy `for (;;)` at slot i0, with candidate len1 from
        slot pos1: the search from slot i0 + 1 either beats the candidate, which
        sends slot i0 as a literal and makes that match the next candidate, or
        it does not, which sends the candidate, cut to j0, and ends the lazy
        match. A slot with a link lies before the last umbral slots loaded (the
        parse invariant), so at least two bytes remain here and the cut never
        brings the candidate down to umbral: the C code's literal branch after
        the cut is unreachable. */
    method LazyTurn(i0: nat, j0: nat, ghost at0: nat, len0: nat, pos0: nat, ghost t: Snapshot)
      returns (more: bool, ok: bool, i: nat, j: nat, ghost at: nat, len1: nat, pos1: nat)
      requires Turn(t, i0, j0, at0) && Lead(t, i0, len0, pos0)
      modifies this`matchLen, this`matchPos, this`bufferBits, this`bitsIn, this`out, this`sent, this`tokens
      ensures t.pos <= i && j < j0 && i + j == t.fill && at == t.base + i && (more ==> 1 <= j)
      ensures ok ==> Emitted(at)
      ensures !ok ==> 8 * (outCap + 1) <= |sent|
      ensures more ==> Lead(t, i, len1, pos1)
    {
      var longer := Rival(i0, j0, len0, pos0, t);
      if longer {
        more, len1, pos1 := true, matchLen, matchPos;
        ok, i, j, at := Overtake(i0, j0, at0, len1, pos1, t);
      } else {
        more, pos1 := false, pos0;
        var dist: nat;
        ok, i, j, at, len1, dist := Settle(i0, j0, at0, len0, pos0, t);
      }
    }

    /** The search of the lazy `for (;;)` from slot i0 + 1, against candidate
        len0 from slot i0: whether it found a longer match, which then becomes
        the candidate at slot i0 + 1. More than umbral bytes are left at i0. */
    method Rival(i0: nat, j0: nat, len0: nat, pos0: nat, ghost t: Snapshot) returns (longer: bool)
      requires Ready() && dict[..] == t.win && links[..] == t.links && InRange(d.dictSize, t.links)
      requires t.pos <= i0 && 1 <= j0 && i0 + j0 == t.fill <= d.dictSize && Unlinked(p.threshold, t.pos, t.fill, t.links)
      requires Lead(t, i0, len0, pos0)
      modifies this`matchLen, this`matchPos
      ensures i0 + p.threshold < t.fill
      ensures longer <==> len0 < matchLen
      ensures longer ==> Lead(t, i0 + 1, matchLen, matchPos) && i0 + 1 + p.threshold < t.fill
    {
      LinkedRoom(p.threshold, t.pos, t.fill, t.links, i0);
      ghost var found := FindMatch(i0 + 1, len0);
      longer := len0 < matchLen;
      if longer {
        LinkedRoom(p.threshold, t.pos, t.fill, t.links, i0 + 1);
      }
    }

    /** The next slot's match beats the candidate: slot i0 goes out as a literal
        and the match found at slot i0 + 1, of len1 bytes from slot pos1, leads. */
    method Overtake(i0: nat, j0: nat, ghost at0: nat, len1: nat, pos1: nat, ghost t: Snapshot)
      returns (ok: bool, i: nat, j: nat, ghost at: nat)
      requires Turn(t, i0, j0, at0) && Lead(t, i0 + 1, len1, pos1) && i0 + 1 + p.threshold < t.fill
      modifies this`bufferBits, this`bitsIn, this`out, this`sent, this`tokens
      ensures t.pos <= i && j < j0 && i + j == t.fill && at == t.base + i && 1 <= j
      ensures i == i0 + 1 && tokens == old(tokens) + [Literal(dict[i0])]
      ensures ok ==> Emitted(at)
      ensures !ok ==> 8 * (outCap + 1) <= |sent|
      ensures Lead(t, i, len1, pos1)
    {
      ok, i, j, at := PutLiteral(i0, j0, at0, t);
    }

    /** Nothing beats the candidate of len0 bytes from slot pos0: it goes out,
        cut to the j0 bytes left, which leaves it longer than umbral; dist is
        the distance sent. */
    method Settle(i0: nat, j0: nat, ghost at0: nat, len0: nat, pos0: nat, ghost t: Snapshot)
      returns (ok: bool, i: nat, j: nat, ghost at: nat, len1: nat, dist: nat)
      requires Turn(t, i0, j0, at0) && Lead(t, i0, len0, pos0) && i0 + p.threshold < t.fill
      modifies this`bufferBits, this`bitsIn, this`out, this`sent, this`tokens
      ensures t.pos <= i && j < j0 && i + j == t.fill && at == t.base + i
      ensures p.threshold < len1 <= j0 && len1 <= len0 && i == i0 + len1
      ensures dist == BitAnd((i0 - pos0) % 0x1_0000_0000, Derive(p).dictSize - 1)
      ensures tokens == old(tokens) + [Match(len1, dist)]
      ensures ok ==> Emitted(at)
      ensures !ok ==> 8 * (outCap + 1) <= |sent|
    {
      len1 := if len0 > j0 then j0 else len0;
      ok, i, j, at, dist := PutMatch(i0, j0, len1, pos0, at0, t);
    }

    /** `BuscarEnDiccionario`: the lazy parse when codicia is 0, the greedy parse
        otherwise; either way the tokens sent encode the bytes of snapshot t. */
    method SearchDictionary(pos: nat, bytes: nat, ghost t: Snapshot) returns (ok: bool)
      requires Sound(t) && t.pos == pos && t.fill == pos + bytes && Emitted(t.base + pos)
      modifies this`matchLen, this`matchPos, this`bufferBits, this`bitsIn, this`out, this`sent, this`tokens
      ensures ok ==> Emitted(t.base + pos + bytes)
      ensures !ok ==> 8 * (outCap + 1) <= |sent|
      ensures dict[..] == old(dict[..]) && links[..] == old(links[..]) && hash[..] == old(hash[..])
    {
      if p.greedy == 0 {
        ok := LazyParse(pos, bytes, t);
      } else {
        ok := GreedyParse(pos, bytes, t);
      }
    }

    /** `TablesHold` on the session's own window, chains and input position. */
    ghost predicate Tables(base: int, fill: nat, lo: int)
      reads this`input, this`inPos, dict, links, hash
    {
      Ready() &&
      TablesHold(d.dictSize, d.sectorSize, d.maxMatch, base, fill, lo, inPos, input, dict[..], links[..], hash[..])
    }

    /** `CargarDiccionario` then `HashearDatos` at slot pos, from tables that hold
        the input before it: when bytes come in, the tables, as snapshot t, meet
        the parse invariant for them; 0 bytes means the input is exhausted. */
    method LoadAndHash(pos: nat, ghost base: int, ghost lo: int) returns (bytes: nat, ghost t: Snapshot)
      requires Ready() && Fits(p, input) && inPos <= |input| && pos + d.sectorSize <= d.dictSize
      requires pos == 0 || d.sectorSize <= pos
      requires 0 <= lo <= base + pos && base + pos + d.sectorSize - d.dictSize <= lo
      requires inPos < |input| ==> Tables(base, pos, lo)
      modifies this`inPos, dict, links, hash
      ensures bytes == 0 <==> old(inPos) == |input|
      ensures inPos == old(inPos) + bytes <= |input| && (inPos < |input| ==> bytes == d.sectorSize)
      ensures bytes > 0 ==> Sound(t) && t.base == base && t.pos == pos && t.fill == pos + bytes && t.lo == lo
      ensures bytes > 0 ==>
        TablesHold(d.dictSize, d.sectorSize, d.maxMatch, base, pos + bytes, lo, base + (pos + bytes), input,
                   t.win, t.links, t.hash)
    {
      DerivedFacts(p);
      ghost var win := dict[..];
      bytes := LoadSector(pos);
      t := Snapshot(base, pos, pos, lo, win, links[..], hash[..]);
      if bytes == 0 {
        return;
      }
      HashStep(pos, bytes, base, lo, win);
      t := Snapshot(base, pos, pos + bytes, lo, dict[..], links[..], hash[..]);
    }

    /** The tables are those of snapshot t, which hold the input loaded up to
        slot fill, whichever way the arguments are written. */
    ghost method TablesAt(base: int, fill: nat, lo: int, t: Snapshot, data: seq<byte>, base2: int, fill2: nat, lo2: int)
      requires Ready() && input == data && inPos == base + fill
      requires dict[..] == t.win && links[..] == t.links && hash[..] == t.hash
      requires TablesHold(d.dictSize, d.sectorSize, d.maxMatch, base, fill, lo, base + fill, data, t.win, t.links, t.hash)
      requires base2 == base && fill2 == fill && lo2 == lo
      ensures Tables(base2, fill2, lo2)
    {
    }

    /** `HashearDatos` at slot pos, right after `CargarDiccionario` loaded the
        bytes there into window win: the tables then meet the parse invariant for
        those bytes. */
    method HashStep(pos: nat, bytes: nat, ghost base: int, ghost lo: int, ghost win: seq<byte>)
      requires Ready() && Fits(p, input)
      requires pos + d.sectorSize <= d.dictSize && (pos == 0 || d.sectorSize <= pos)
      requires 0 <= base && 1 <= bytes <= d.sectorSize && base + pos + bytes <= |input|
      requires 0 <= lo <= base + pos && base + pos + d.sectorSize - d.dictSize <= lo
      requires WindowHolds(d.dictSize, base, pos, win, input)
      requires (base > 0 || pos > 0) ==> Mirrored(d.dictSize, d.sectorSize, d.maxMatch, win)
      requires ChainsValid(d.dictSize, base, pos, lo, base + pos, links[..], hash[..])
      requires InRange(d.dictSize, links[..]) && InRange(d.dictSize, hash[..])
      requires |win| == dict.Length
      requires forall v :: 0 <= v < d.dictSize ==> dict[v] == if pos <= v < pos + bytes then input[base + v] else win[v]
      requires pos == 0 ==> forall m :: 0 <= m < d.maxMatch ==> dict[d.dictSize + m] == dict[m]
      requires pos != 0 ==> forall v :: d.dictSize <= v < |win| ==> dict[v] == win[v]
      modifies links, hash
      ensures Parsing(d.dictSize, d.sectorSize, d.maxMatch, p.threshold,
                      Snapshot(base, pos, pos + bytes, lo, dict[..], links[..], hash[..]), input)
      ensures WindowHolds(d.dictSize, base, pos + bytes, dict[..], input)
      ensures Mirrored(d.dictSize, d.sectorSize, d.maxMatch, dict[..])
      ensures ChainsValid(d.dictSize, base, pos + bytes, lo, base + (pos + bytes), links[..], hash[..])
      ensures InRange(d.dictSize, links[..]) && InRange(d.dictSize, hash[..])
    {
      DerivedFacts(p);
      ghost var ls, hs := links[..], hash[..];
      HashSector(pos, bytes);
      LoadHashReady(p, base, pos, bytes, lo, input, win, ls, hs, dict[..], links[..], hash[..]);
    }

    /** The invariant of the `CodificarBuffer` loop at window slot pos of the cycle
        that starts at input position base: evict says whether that slot's
        sector still holds the previous cycle's bytes; the tokens sent encode
        the input loaded so far, and while input is left the tables hold it. */
    ghost predicate Cycle(base: int, pos: nat, evict: bool)
      reads this, dict, links, hash
    {
      Ready() && Fits(p, input) && inPos <= |input| && Emitted(inPos) &&
      pos + d.sectorSize <= d.dictSize && pos % d.sectorSize == 0 && (pos == 0 || d.sectorSize <= pos) &&
      (evict <==> base > 0) && (base == 0 || base >= d.dictSize) &&
      (inPos < |input| ==> Tables(base, pos, Oldest(d.dictSize, base, pos)))
    }

    /** `EliminarDatos` at slot pos when the slot is marked as holding the previous
        cycle's bytes, ahead of loading the next ones there: the chains no longer
        reach the positions that slot held. */
    method EvictStep(pos: nat, evict: bool, ghost base: int)
      requires Ready() && pos + d.sectorSize <= d.dictSize && pos % d.sectorSize == 0
      requires (evict <==> base > 0) && (base == 0 || base >= d.dictSize)
      requires inPos < |input| ==> Tables(base, pos, Oldest(d.dictSize, base, pos))
      modifies links, hash
      ensures inPos < |input| ==> Tables(base, pos, Oldest(d.dictSize, base, pos + d.sectorSize))
    {
      if evict {
        DerivedFacts(p);
        WindowBound(p);
        ghost var ls, hs := links[..], hash[..];
        EvictSector(pos);
        if inPos < |input| {
          EvictedTables(d.dictSize, p.sectorBits, d.maxMatch, base, pos, Oldest(d.dictSize, base, pos),
                        Oldest(d.dictSize, base, pos + d.sectorSize), inPos, input, dict[..], ls, hs, links[..], hash[..]);
        }
      }
    }

    /** The start of a pass of the `CodificarBuffer` loop at slot pos: `EliminarDatos`
        if the slot is marked, then `CargarDiccionario` and `HashearDatos`. */
    method PrepareSector(pos: nat, evict: bool, ghost base: int, ghost data: seq<byte>)
      returns (bytes: nat, ghost t: Snapshot)
      requires Ready() && input == data && Fits(p, input) && inPos <= |input|
      requires pos + d.sectorSize <= d.dictSize && pos % d.sectorSize == 0 && (pos == 0 || d.sectorSize <= pos)
      requires (evict <==> base > 0) && (base == 0 || base >= d.dictSize)
      requires inPos < |input| ==> Tables(base, pos, Oldest(d.dictSize, base, pos))
      modifies this`inPos, dict, links, hash
      ensures bytes == 0 <==> old(inPos) == |input|
      ensures inPos == old(inPos) + bytes <= |input| && (inPos < |input| ==> bytes == d.sectorSize)
      ensures bytes > 0 ==> Sound(t) && t.base == base && t.pos == pos && t.fill == pos + bytes &&
                            old(inPos) == base + pos
      ensures bytes > 0 ==>
        TablesHold(d.dictSize, d.sectorSize, d.maxMatch, base, pos + bytes, Oldest(d.dictSize, base, pos + d.sectorSize),
                   base + (pos + bytes), data, t.win, t.links, t.hash)
    {
      ghost var lo := Oldest(d.dictSize, base, pos + d.sectorSize);
      EvictStep(pos, evict, base);
      bytes, t := LoadAndHash(pos, base, lo);
    }

    /** One pass of the `CodificarBuffer` loop at slot pos: evict the slot's old
        sector if marked, load and hash the next bytes there, and parse them.
        No bytes means the input is exhausted; otherwise the tokens sent encode
        the input loaded so far, and while input is left the tables hold it. */
    method CompressSector(pos: nat, evict: bool, ghost base: int, ghost data: seq<byte>)
      returns (ok: bool, bytes: nat, ghost t: Snapshot)
      requires Cycle(base, pos, evict) && input == data
      modifies this`inPos, this`matchLen, this`matchPos, this`bufferBits, this`bitsIn, this`out,
               this`sent, this`tokens, dict, links, hash
      ensures bytes == 0 ==> ok && old(inPos) == inPos == |input|
      ensures inPos == old(inPos) + bytes && (bytes > 0 ==> old(inPos) == base + pos)
      ensures ok ==> Ready() && inPos <= |input| && Emitted(inPos)
      ensures inPos < |input| ==> bytes == d.sectorSize
      ensures ok && bytes > 0 ==> dict[..] == t.win && links[..] == t.links && hash[..] == t.hash
      ensures bytes > 0 ==>
        TablesHold(d.dictSize, d.sectorSize, d.maxMatch, base, pos + bytes, Oldest(d.dictSize, base, pos + d.sectorSize),
                   base + (pos + bytes), data, t.win, t.links, t.hash)
      ensures !ok ==> 8 * (outCap + 1) <= |sent|
    {
      bytes, t := PrepareSector(pos, evict, base, data);
      ok := true;
      if bytes > 0 {
        ok := SearchDictionary(pos, bytes, t);
      }
    }

    /** The tables of a cycle that filled the whole window are those of the next
        cycle, which starts d.dictSize positions later, before anything is loaded. */
    ghost method WrapTables(base: int, fill: nat, base2: int)
      requires fill == d.dictSize && Tables(base, fill, Oldest(d.dictSize, base, fill)) && base2 == base + d.dictSize
      ensures Tables(base2, 0, Oldest(d.dictSize, base2, 0))
    {
      WrapKeeps(d.dictSize, base, base + d.dictSize, Oldest(d.dictSize, base, d.dictSize), base + d.dictSize,
                dict[..], input, links[..], hash[..]);
    }

    /** The end of `CodificarBuffer`: the end marker, then the flush. */
    method SendEnd() returns (ok: bool)
      requires Ready() && Writing()
      modifies this`bufferBits, this`bitsIn, this`out, this`sent
      ensures ok ==> Writing() && sent == Padded(old(sent) + TokenBits(p, End)) && BytesToBits(out) == sent
      ensures !ok ==> 8 * (outCap + 1) <= |sent|
    {
      ghost var end := TokenBits(p, End);
      assert end == MatchBits(p, d.maxMatch + 1, 0);
      ok := SendMatch(d.maxMatch + 1, 0);
      if ok {
        ok := Flush();
      }
    }

    /** The flush of `CodificarBuffer`: zero bits up to the next byte boundary,
        sent only when bits are pending; the output then holds exactly the bits
        sent. */
    method Flush() returns (ok: bool)
      requires Writing()
      modifies this`bufferBits, this`bitsIn, this`out, this`sent
      ensures ok ==> Writing() && sent == Padded(old(sent)) && BytesToBits(out) == sent
      ensures !ok ==> 8 * (outCap + 1) <= |sent|
    {
      ok := true;
      if bitsIn > 0 {
        PadPending(out, outCap, bufferBits, bitsIn, sent);
        ok := SendBits(0, 8 - bitsIn);
      }
      if ok {
        PadFlushed(out, outCap, bufferBits, bitsIn, sent);
      }
    }

    /** The end of a pass of the `CodificarBuffer` loop: the cursor moves on by a
        sector and, at the end of the window, wraps to slot 0 with the eviction
        mark set; the loop invariant then holds at the new slot. */
    method Advance(pos: nat, evict: bool, bytes: nat, ghost base: int, ghost t: Snapshot, ghost data: seq<byte>)
      returns (pos': nat, evict': bool, ghost base': int)
      requires Ready() && input == data && Fits(p, input) && inPos <= |input| && Emitted(inPos)
      requires pos + d.sectorSize <= d.dictSize && pos % d.sectorSize == 0
      requires (evict <==> base > 0) && (base == 0 || base >= d.dictSize)
      requires bytes > 0 && inPos == base + pos + bytes && (inPos < |input| ==> bytes == d.sectorSize)
      requires dict[..] == t.win && links[..] == t.links && hash[..] == t.hash
      requires TablesHold(d.dictSize, d.sectorSize, d.maxMatch, base, pos + bytes, Oldest(d.dictSize, base, pos + d.sectorSize),
                          base + (pos + bytes), data, t.win, t.links, t.hash)
      ensures pos + d.sectorSize < d.dictSize ==> pos' == pos + d.sectorSize && evict' == evict && base' == base
      ensures pos + d.sectorSize == d.dictSize ==> pos' == 0 && evict' && base' == base + d.dictSize
      ensures Cycle(base', pos', evict')
    {
      DerivedFacts(p);
      NextSector(pos, d.sectorSize, d.dictSize);
      var next := pos + d.sectorSize;
      if next < d.dictSize {
        pos', evict', base' := next, evict, base;
      } else {
        pos', evict', base' := 0, true, base + d.dictSize;
      }
      NextTables(pos, bytes, base, t, data, pos', base');
    }

    /** The tables after a pass, at the slot where the next pass starts. */
    ghost method NextTables(pos: nat, bytes: nat, base: int, t: Snapshot, data: seq<byte>, pos': nat, base': int)
      requires Ready() && input == data && inPos == base + pos + bytes && pos + d.sectorSize <= d.dictSize
      requires inPos < |input| ==> bytes == d.sectorSize
      requires dict[..] == t.win && links[..] == t.links && hash[..] == t.hash
      requires TablesHold(d.dictSize, d.sectorSize, d.maxMatch, base, pos + bytes, Oldest(d.dictSize, base, pos + d.sectorSize),
                          base + (pos + bytes), data, t.win, t.links, t.hash)
      requires pos + d.sectorSize < d.dictSize ==> pos' == pos + d.sectorSize && base' == base
      requires pos + d.sectorSize == d.dictSize ==> pos' == 0 && base' == base + d.dictSize
      ensures inPos < |input| ==> Tables(base', pos', Oldest(d.dictSize, base', pos'))
    {
      if inPos < |input| {
        if pos + d.sectorSize < d.dictSize {
          TablesAt(base, pos + bytes, Oldest(d.dictSize, base, pos + d.sectorSize), t, data,
                   base', pos', Oldest(d.dictSize, base', pos'));
        } else {
          TablesAt(base, pos + bytes, Oldest(d.dictSize, base, pos + d.sectorSize), t, data,
                   base, d.dictSize, Oldest(d.dictSize, base, d.dictSize));
          WrapTables(base, d.dictSize, base');
        }
      }
    }

    /** The loop of `CodificarBuffer`: pass after pass over the window's sectors,
        wrapping to slot 0 with the eviction mark set once the window is full,
        until the input is exhausted. On success the tokens sent encode the whole
        input. */
    method EncodeSectors() returns (ok: bool)
      requires Cycle(0, 0, false)
      modifies this`inPos, this`matchLen, this`matchPos, this`bufferBits, this`bitsIn, this`out,
               this`sent, this`tokens, dict, links, hash
      ensures ok ==> Ready() && inPos == |input| && Emitted(|input|)
      ensures !ok ==> 8 * (outCap + 1) <= |sent|
    {
      var pos: nat, evict := 0, false;
      ghost var base: int := 0;
      ghost var data := input;
      while true
        invariant input == data
        invariant Cycle(base, pos, evict)
        decreases |input| - inPos
      {
        var bytes;
        ghost var t;
        ok, bytes, t := CompressSector(pos, evict, base, data);
        if !ok || bytes == 0 {
          break;
        }
        pos, evict, base := Advance(pos, evict, bytes, base, t, data);
      }
    }

    /** Right after `InicializarCodificacion`, with nothing loaded, the tables
        hold the input before position 0. */
    ghost method StartTables()
      requires Ready() && inPos == 0
      requires forall b :: 0 <= b < hash.Length ==> hash[b] == NONE
      requires forall s :: 0 <= s < links.Length ==> links[s] == NONE
      ensures Tables(0, 0, Oldest(d.dictSize, 0, 0))
    {
      DerivedFacts(p);
      EmptyTables(d.dictSize, d.sectorSize, d.maxMatch, input, dict[..], links[..], hash[..]);
    }

    /** `CodificarBuffer`: compress `data` into an output buffer of capacity `cap`.
        The result is the number of bytes written, and those bytes are the bits
        of tokens that replay to `data`, then the end marker, then zero padding.
        The C code exits when the output overflows; here that is an error. */
    method Compress(data: seq<byte>, cap: nat) returns (r: Result<nat>)
      requires Ready() && Fits(p, data)
      modifies this, dict, links, hash
      ensures input == data && outCap == cap
      ensures r.Ok? ==> r.value == |out| <= cap && Encodes(p, tokens, data, |data|) &&
                        BytesToBits(out) == PaddedStream(p, tokens)
      ensures r.Err? ==> r.error == OutputExhausted && 8 * (cap + 1) <= |sent|
    {
      input, inPos, out, outCap := data, 0, [], cap;
      sent, tokens := [], [];
      InitEncoder();
      StartTables();
      DerivedFacts(p);
      assert Emitted(0) by {
        assert data[..0] == [];
      }
      var ok := EncodeSectors();
      if ok {
        ok := SendEnd();
      }
      if ok {
        r := Ok(|out|);
      } else {
        r := Err(OutputExhausted);
      }
    }

    /** The decoder loop's invariant: run from the current state over the bits
        still to read, the decoder loop yields `target`. */
    ghost predicate Decoding(i: nat, target: Result<seq<byte>>)
      reads this, dict
    {
      Ready() && Reading() && i < d.dictSize &&
      DecodeLoop(p, outCap, Remaining(), Window(dict[..d.dictSize], i, out)) == target
    }

    /** The decoder's return value and output agree with the decoder loop's outcome. */
    ghost predicate Finished(r: Result<nat>, target: Result<seq<byte>>)
      reads this`out
    {
      (r.Ok? <==> target.Ok?) &&
      (r.Ok? ==> out == target.value && r.value == |out|) &&
      (r.Err? ==> r.error == target.error)
    }

    /** The literal branch of `DecodificarBuffer`, after its flag bit 0. */
    method DecodeLiteral(i: nat, ghost bits0: seq<bool>, ghost target: Result<seq<byte>>)
      returns (stop: Option<Result<nat>>, i1: nat)
      requires Ready() && Reading() && i < d.dictSize
      requires ReadField(bits0, 1) == Some((0, Remaining()))
      requires DecodeLoop(p, outCap, bits0, Window(dict[..d.dictSize], i, out)) == target
      modifies this`bufferBits, this`bitsIn, this`inPos, this`out, dict
      ensures stop.Some? ==> Finished(stop.value, target)
      ensures stop.None? ==> Decoding(i1, target) && |Remaining()| < |bits0|
    {
      var n := d.dictSize;
      ghost var st := Window(dict[..n], i, out);
      ghost var bits1 := Remaining();
      // The `i >= tam_diccionario + max_coincidencia` overflow test never fires,
      // since the cursor stays below the window size.
      var ok, v := ReadBits(p.charBits);
      if !ok {
        CutTurn(p, outCap, bits0, st);
        return Some(Err(InputExhausted)), i;
      }
      // The field is stored into an `unsigned char`.
      var b: byte := v % 256;
      LiteralTurn(p, outCap, n, bits0, dict[..n], i, out, bits1, v, b, Remaining());
      var full;
      full, i1 := Store(i, b);
      stop := if full then Some(Err(OutputExhausted)) else None;
    }

    /** `diccionario[i++] = c`, then, when the cursor reaches the window size, the
        flush of the whole window to the output (failing when it does not fit) and
        the cursor's return to 0: the decoder loop's Emit. */
    method Store(i: nat, c: byte) returns (full: bool, i1: nat)
      requires Ready() && i < d.dictSize
      modifies this`out, dict
      ensures var e := Emit(d.dictSize, outCap, old(Window(dict[..d.dictSize], i, out)), c);
        (full <==> e.Err?) && (!full ==> e.value == Window(dict[..d.dictSize], i1, out))
    {
      var n := d.dictSize;
      ghost var win := dict[..n];
      dict[i] := c;
      assert dict[..n] == win[i := c];
      i1 := i + 1;
      full := false;
      if i1 == n {
        if |out| + n > outCap {
          return true, i1;
        }
        out := out + dict[..n];
        i1 := 0;
      }
    }

    /** The match branch of `DecodificarBuffer`, after its flag bit 1: the end
        marker, or a match copied into the window. */
    method DecodeMatch(i: nat, ghost bits0: seq<bool>, ghost target: Result<seq<byte>>)
      returns (stop: Option<Result<nat>>, i1: nat)
      requires Ready() && Reading() && i < d.dictSize
      requires ReadField(bits0, 1) == Some((1, Remaining()))
      requires DecodeLoop(p, outCap, bits0, Window(dict[..d.dictSize], i, out)) == target
      modifies this`bufferBits, this`bitsIn, this`inPos, this`out, dict
      ensures stop.Some? ==> Finished(stop.value, target)
      ensures stop.None? ==> Decoding(i1, target) && |Remaining()| < |bits0|
    {
      var n := d.dictSize;
      ghost var st := Window(dict[..n], i, out);
      ghost var bits1 := Remaining();
      var ok, f := ReadBits(p.lengthBits);
      if !ok {
        CutTurn(p, outCap, bits0, st);
        return Some(Err(InputExhausted)), i;
      }
      ghost var bits2 := Remaining();
      var k := p.threshold + 1 + f;
      if k == d.maxMatch + 1 {
        EndTurn(p, outCap, bits0, st, bits1, f, bits2);
        if |out| + i > outCap {
          return Some(Err(OutputExhausted)), i;
        }
        assert st.win[..i] == dict[..i];
        out := out + dict[..i];
        return Some(Ok(|out|)), i;
      }
      var dist;
      ok, dist := ReadBits(p.dictBits);
      if !ok {
        CutTurn(p, outCap, bits0, st);
        return Some(Err(InputExhausted)), i;
      }
      // `(i - distancia) & (tam_diccionario - 1)` on 32-bit unsigned values.
      var j := BitAnd((i - dist) % 0x1_0000_0000, n - 1);
      MatchTurn(p, outCap, n, bits0, dict[..n], i, out, bits1, f, bits2, dist, Remaining(), j, k);
      var full;
      full, i1 := CopyMatch(i, j, k, target);
      stop := if full then Some(Err(OutputExhausted)) else None;
    }

    /** The copy of k bytes from window position j to the cursor i in
        `DecodificarBuffer`. The C code picks one of three loops: one that wraps
        both positions and flushes the window, one that wraps only the source, and
        one that wraps neither; each is used only where it copies what the first
        one would. */
    method CopyMatch(i: nat, j: nat, k: nat, ghost target: Result<seq<byte>>)
      returns (full: bool, i1: nat)
      requires Ready() && Reading() && i < d.dictSize && j < d.dictSize && k >= 1
      requires Resume(p, outCap, CopyLoop(d.dictSize, outCap, Window(dict[..d.dictSize], i, out), j, k),
                      Remaining()) == target
      modifies this`out, dict
      ensures full ==> target == Err(OutputExhausted)
      ensures !full ==> Decoding(i1, target)
    {
      var n := d.dictSize;
      ghost var goal := CopyLoop(n, outCap, Window(dict[..n], i, out), j, k);
      if i + k >= n {
        full, i1 := CopyWrapping(n, p.dictBits, i, j, k, goal);
      } else if j + k >= n {
        i1 := CopyWrapSource(n, p.dictBits, i, j, k, goal);
        full := false;
      } else {
        i1 := CopyStraight(n, i, j, k, goal);
        full := false;
      }
    }

    /** The first copy loop: both positions wrap at the window size, and the window
        is flushed whenever the cursor reaches its end. */
    method CopyWrapping(n: nat, db: nat, i: nat, j: nat, k: nat, ghost goal: Result<Window>)
      returns (full: bool, i1: nat)
      requires Ready() && n == d.dictSize && n == Pow2(db)
      requires i < n && j < n && k >= 1
      requires CopyLoop(n, outCap, Window(dict[..n], i, out), j, k) == goal
      modifies this`out, dict
      ensures full ==> goal == Err(OutputExhausted)
      ensures !full ==> i1 < n && goal == Ok(Window(dict[..n], i1, out))
    {
      var src: nat, left: nat := j, k;
      i1 := i;
      while true
        invariant i1 < n && src < n && left >= 1
        invariant CopyLoop(n, outCap, Window(dict[..n], i1, out), src, left) == goal
        decreases left
      {
        EmitCopy(n, outCap, Window(dict[..n], i1, out), src, left);
        // `j &= tam_diccionario - 1`
        SuccMask(n, db, src);
        var next := BitAnd(src + 1, n - 1);
        full, i1 := Store(i1, dict[src]);
        if full {
          return;
        }
        src := next;
        left := left - 1;
        if left == 0 {
          return;
        }
      }
    }

    /** The second copy loop, used when the copy stays below the window end:
        only the source wraps. */
    method CopyWrapSource(n: nat, db: nat, i: nat, j: nat, k: nat, ghost goal: Result<Window>)
      returns (i1: nat)
      requires n == Pow2(db) && n <= dict.Length
      requires i + k < n && j < n && k >= 1
      requires CopyLoop(n, outCap, Window(dict[..n], i, out), j, k) == goal
      modifies dict
      ensures i1 < n && goal == Ok(Window(dict[..n], i1, out))
    {
      var src: nat, left: nat := j, k;
      i1 := i;
      while true
        invariant i1 + left < n && src < n && left >= 1
        invariant CopyLoop(n, outCap, Window(dict[..n], i1, out), src, left) == goal
        decreases left
      {
        ghost var win := dict[..n];
        SuccMask(n, db, src);
        var next := BitAnd(src + 1, n - 1);
        CopyTurn(n, outCap, win, i1, out, src, left);
        dict[i1] := dict[src];
        assert dict[..n] == win[i1 := win[src]];
        src := next;
        i1 := i1 + 1;
        left := left - 1;
        if left == 0 {
          return i1;
        }
      }
    }

    /** The third copy loop, used when neither position reaches the window end. */
    method CopyStraight(n: nat, i: nat, j: nat, k: nat, ghost goal: Result<Window>)
      returns (i1: nat)
      requires n <= dict.Length
      requires i + k < n && j + k < n && k >= 1
      requires CopyLoop(n, outCap, Window(dict[..n], i, out), j, k) == goal
      modifies dict
      ensures i1 < n && goal == Ok(Window(dict[..n], i1, out))
    {
      var src: nat, left: nat := j, k;
      i1 := i;
      while true
        invariant i1 + left < n && src + left < n && left >= 1
        invariant CopyLoop(n, outCap, Window(dict[..n], i1, out), src, left) == goal
        decreases left
      {
        ghost var win := dict[..n];
        CopyTurn(n, outCap, win, i1, out, src, left);
        dict[i1] := dict[src];
        assert dict[..n] == win[i1 := win[src]];
        src := src + 1;
        i1 := i1 + 1;
        left := left - 1;
        if left == 0 {
          return i1;
        }
      }
    }

    /** `DecodificarBuffer`: decode `compressed` into the output buffer of capacity
        `cap`, through the window, which it does not clear first. The result is
        the number of bytes written, and the output is what the decoder loop
        over the window's initial contents produces; every way that loop fails,
        the method fails the same way. */
    method Decompress(compressed: seq<byte>, cap: nat) returns (r: Result<nat>)
      requires Ready()
      modifies this, dict
      ensures Finished(r, DecodeSpec(p, compressed, old(dict[..d.dictSize]), cap))
    {
      assert Pow2(1) == 2;
      var n := d.dictSize;
      ghost var target := DecodeSpec(p, compressed, dict[..n], cap);
      input, inPos, out, outCap := compressed, 0, [], cap;
      bitsIn, bufferBits := 0, 0;
      var i: nat := 0;
      assert Remaining() == BytesToBits(compressed);
      while true
        invariant Decoding(i, target) && outCap == cap
        decreases |Remaining()|
      {
        var stop;
        stop, i := DecodeTurn(i, target);
        if stop.Some? {
          return stop.value;
        }
      }
    }

    /** One pass of the `DecodificarBuffer` loop: the flag bit, then the literal or
        match branch. */
    method DecodeTurn(i: nat, ghost target: Result<seq<byte>>) returns (stop: Option<Result<nat>>, i1: nat)
      requires Decoding(i, target)
      modifies this`bufferBits, this`bitsIn, this`inPos, this`out, dict
      ensures stop.Some? ==> Finished(stop.value, target)
      ensures stop.None? ==> Decoding(i1, target) && |Remaining()| < old(|Remaining()|)
    {
      assert Pow2(1) == 2;
      ghost var bits0 := Remaining();
      var ok, flag := ReadBits(1);
      if !ok {
        CutTurn(p, outCap, bits0, Window(dict[..d.dictSize], i, out));
        return Some(Err(InputExhausted)), i;
      }
      if flag == 0 {
        stop, i1 := DecodeLiteral(i, bits0, target);
      } else {
        stop, i1 := DecodeMatch(i, bits0, target);
      }
    }

    /** The example driver's use of the codec: compress data into a buffer
        twice its size, then decompress that stream, through the same window,
        into a buffer of data's size. Whenever compression succeeds, the
        decompressed bytes are exactly data. */
    method CompressDecompress(data: seq<byte>) returns (r: Result<seq<byte>>)
      requires Ready() && Fits(p, data)
      modifies this, dict, links, hash
      ensures r.Ok? ==> r.value == data
      ensures r.Err? ==> r.error == OutputExhausted && 8 * (2 * |data| + 1) <= |sent|
    {
      var c := Compress(data, 2 * |data|);
      if c.Err? {
        r := Err(c.error);
      } else {
        var stream := out;
        ghost var win0 := dict[..d.dictSize];
        RoundTrip(p, data, tokens, stream, win0, |data|);
        var u := Decompress(stream, |data|);
        r := Ok(out);
      }
    }
  }

  /** The round trip: a stream of the encoder's form for tokens that encode
      data — the tokens, the end marker, zero padding — decodes back to data,
      whatever the window held before, or fails with OutputExhausted exactly
      when data does not fit the capacity. */
  lemma RoundTrip(p: Params, data: seq<byte>, ts: seq<Token>, stream: seq<byte>, win0: seq<byte>, cap: nat)
    requires Valid(p) && |win0| == Derive(p).dictSize
    requires Encodes(p, ts, data, |data|) && BytesToBits(stream) == PaddedStream(p, ts)
    ensures DecodeSpec(p, stream, win0, cap) == if |data| <= cap then Ok(data) else Err(OutputExhausted)
  {
    var bits := TokensBits(p, ts) + TokenBits(p, End);
    var pad := (8 - |bits| % 8) % 8;
    assert PaddedStream(p, ts) == bits + Zeros(pad);
    assert data[..|data|] == data;
    DecodeStreamReplays(p, stream, win0, cap, ts, pad);
  }
}

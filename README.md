# A verified model of a hashing, sliding-window LZ77 codec

This project models the C LZ77 codec in `src/lz77.c` and `include/lz77.h`. The codec is a
readaptation of Rich Geldreich's PROG1. It compresses an in-memory byte buffer into a
stream of fixed-width tokens, and decompresses that stream back.

The model has these parts:

- **Configuration** (`Lz77Params`). `Params` is the record `LZ77Params`, and `Derived` is
  `DerivedParams`. `Derive` is `calculate_derived_params`, and `DefaultParams` is
  `default_params`.
  - `Valid` collects the ranges the code silently relies on:
    - every field width is at most 16, because the `mascaras` table has 17 entries;
    - the window has at most 2^15 slots, so a slot never equals the `0xFFFF` "none" marker;
    - `bits_hash >= bits_caracter`;
    - `bit_sector <= bits_diccionario`;
    - `max_coincidencia <= tam_diccionario`;
    - `umbral >= 1` and `max_comparaciones >= 1`.
- **Bit channel** (`BitStream`). A stream is a `seq<bool>`, least-significant bit first.
  `NatBits` and `BitsToNat` convert between a number and its bits. `BytesToBits` views
  bytes as bits, and `ReadField` reads one fixed-width field.
  - The writer's state (`buffer_bits`, `bits_en`, the bytes written) is tied to the
    sequence of every bit sent so far by the predicate `Buffered`.
- **Tokens** (`Tokens`). A token is `Literal(v)`, `Match(length, distance)` or `End`.
  - `MatchBits` and `LiteralBits` give the token layout written by `EnviarCoincidencia`
    and `EnviarCaracter`.
  - The end marker is the match of length `max_coincidencia + 1` with distance 0.
  - `ReadToken` is the decoder's view of one token.
- **History** (`History`). This is the meaning of a token sequence on bytes:
  - a literal appends its byte;
  - a match appends `length` bytes, each copied from `distance` bytes back (`CopyBack`),
    so overlapping copies are allowed.
- **Decoder** (`DecoderSpec`).
  - `DecodeLoop` is the loop of `DecodificarBuffer` on a `Window`, that is, the window
    bytes, the cursor `i` and the bytes already flushed. It uses the same wrap-around
    source index, the same flush whenever the cursor reaches `tam_diccionario`, and the
    same capacity tests.
  - `DecodeSpec` runs that loop over an input buffer.
  - `Tracks` relates a window state to the byte history it stands for.
- **Encoder invariants** (`EncoderSpec`). These are the facts the compressor's tables keep:
  - `WindowHolds`: every filled window slot holds the input byte at its position.
  - `Mirrored`: the tail behind the window repeats its head.
  - `ChainsValid`: every link of `siguiente_enlace`, and every bucket head of `hash`, names
    an older position still in the window.
  - `Parsing`: the above, and the last `umbral` slots of the sector have no link.
  - `Encodes` / `Encoded`: the tokens sent replay to the input read so far, and the bits
    sent are exactly those tokens' bits.
- **The codec** (`Codec.Session`). The C globals become the fields of one session
  object:
  - `diccionario`, `hash` and `siguiente_enlace` are arrays;
  - `buffer_bits`, `bits_en`, the input and output buffers and cursors, and
    `longitud_coincidencia`/`posicion_coincidencia` are fields.

  Every routine of `src/lz77.c` is a method on that state. Each method is proved against
  the specification functions above: the bits it sends, the tables it leaves, and the
  decoder state it reaches.

The headline results are:

- **Compression.** `Codec.Session.Compress` (`CodificarBuffer`) either fails because the
  output is full, or returns `|out|` with two guarantees:
  - the output is the bits of a token sequence that replays to the input, followed by the
    end marker and zero padding;
  - every match in that sequence copies bytes equal to the bytes it stands for.
- **Decompression.** `Codec.Session.Decompress` (`DecodificarBuffer`) returns exactly what
  `DecodeSpec` says. That covers its output, its length and its two failure modes: input
  exhausted and output full.
- **Round trip.** `Codec.RoundTrip` shows that decoding such a stream gives back the
  original bytes whenever they fit the output capacity.
  - `Codec.Session.CompressDecompress` runs the sequence of `example/code.c`: compress
    into a buffer twice the input's size, then decompress. Whenever compression succeeds,
    the decompressed bytes equal the input.

Failures that the C code reports with `fprintf` and then `exit` or `return -1` are
`Err(InputExhausted)` or `Err(OutputExhausted)` results here.

## Model

| member | source | states |
|---|---|---|
| Lz77Params.Derive | src/lz77.c:12-21 | computes max_coincidencia, tam_diccionario, tam_hash, bits_desplazamiento, tam_sector and mascara_sector from the configuration; its contract states that the sector mask is 2^16 minus the sector size |
| Lz77Params.SectorMaskValue | src/lz77.c:19 | `(0xFFFF << s) & 0xFFFF` is 2^16 - 2^s: the mask keeps exactly the sector-number bits of a slot |
| Lz77Params.DerivedFacts | src/lz77.c:12-21 | for a valid configuration: umbral < max_coincidencia <= tam_diccionario <= 2^15, the sector size divides the window, the sector mask is 2^16 minus the sector size, and 2^bits_caracter <= tam_hash |
| Lz77Params.WindowBound | include/lz77.h:65-74 | a valid window has at most 2^15 slots, so no slot index equals the 0xFFFF "none" marker |
| Lz77Params.DefaultDerived | include/lz77.h:98-107 | the default configuration is valid and derives to max match 17, window 8192, hash size 1024, shift 4, sector 1024, mask 0xFC00 |
| Bitwise.AndLowMask | src/lz77.c:64 | `x & mascaras[n]`, with mascaras[n] = 2^n - 1, keeps x mod 2^n |
| Bitwise.XorBound | src/lz77.c:126 | xor of two values below 2^n stays below 2^n |
| Bitwise.WrapMask | src/lz77.c:284 | masking a 32-bit wrapped difference with 2^db - 1 gives the difference mod 2^db |
| BitStream.NatBitsRoundTrip | src/lz77.c:36-68 | reading back the w bits written for v gives v mod 2^w |
| BitStream.BitsToNatRoundTrip | src/lz77.c:52-68 | writing back the value read from w bits gives those same bits |
| BitStream.NatBitsConcat | src/lz77.c:37-38 | OR-ing a field above the e pending bits gives the pending bits followed by the field |
| BitStream.ReadField | src/lz77.c:52-68 | a w-bit field can be read iff at least w bits remain; its value is below 2^w and exactly w bits are consumed |
| BitStream.ReadFieldNatBits | src/lz77.c:36-68 | a field written for v < 2^w reads back as v, leaving the bits that followed it |
| BitStream.FlushByte | src/lz77.c:45-47 | moving the low byte of the accumulator to the output keeps the sequence of bits sent unchanged |
| BitStream.FetchStep | src/lz77.c:60-61 | shifting the next input byte in above the pending bits keeps the sequence of bits still to read unchanged |
| BitStream.TakeStep | src/lz77.c:64-66 | masking the low w pending bits and shifting them out is reading one w-bit field |
| Tokens.MatchFieldsAppend | src/lz77.c:71-75 | the flag bit 1, the length field and the distance field sent one after another are the match token's bits |
| Tokens.MatchBits | src/lz77.c:71-75 | a match token is the flag bit 1, then the length less umbral + 1 in bits_coincidencia bits, then the distance in bits_diccionario bits: 1 + bits_coincidencia + bits_diccionario bits in all |
| Tokens.LiteralBits | src/lz77.c:76-79 | a literal token is the flag bit 0, then the character in bits_caracter bits: 1 + bits_caracter bits in all |
| Tokens.TokenBits | src/lz77.c:71-79 | a token's bits are empty only for a match no longer than umbral, which the encoder never sends; otherwise the first bit is the flag, 0 exactly for a literal |
| Tokens.TokensBitsAppend | src/lz77.c:71-79 | the bits of a token sequence grow by exactly the bits of each token appended |
| Tokens.ReadToken | src/lz77.c:258-284 | reading a token consumes at least one bit, and a match's distance is below 2^bits_diccionario |
| Tokens.EndFieldUnique | src/lz77.c:274-275 | a real match's length field is at most 2^bits_coincidencia - 2 and the end marker's is 2^bits_coincidencia - 1, so the decoder's end test fires only on the marker |
| Tokens.ReadTokenRoundTrip | src/lz77.c:71-79 | every encodable token written by the encoder is read back as the same token, leaving the bits that followed |
| Tokens.ReadLiteralRoundTrip | src/lz77.c:76-79 | a literal below 2^bits_caracter reads back as the same literal |
| Tokens.ReadMatchRoundTrip | src/lz77.c:71-75 | a match with umbral < length <= max_coincidencia and distance < tam_diccionario reads back as the same match |
| Tokens.ReadMatchFields | src/lz77.c:258-284 | a flag bit 1, a length field below the end marker's and a distance field read back as the match of length umbral + 1 + field with that distance, leaving the bits after them |
| Tokens.ReadEndMarker | src/lz77.c:240 | the end marker written by the encoder reads back as End, followed by its zero distance field |
| History.CopyBack | src/lz77.c:284-310 | copying k bytes from d back keeps the history as a prefix and adds exactly k bytes |
| History.CopyBackCopies | src/lz77.c:287 | each copied byte equals the byte d positions before it, even where source and destination overlap |
| History.CopyBackIsUnique | src/lz77.c:284-310 | any extension by k bytes, each equal to the byte d back, is the copy |
| History.Replay | src/lz77.c:257-311 | replaying tokens only appends to the history |
| History.ReplayAppend | src/lz77.c:257-311 | replaying one more token applies that token to the replay of the others |
| DecoderSpec.Emit | src/lz77.c:263-272 | storing a byte keeps the window well formed; it fails only because the output is full |
| DecoderSpec.CopyLoop | src/lz77.c:285-310 | a match copy keeps the window well formed; it fails only because the output is full |
| DecoderSpec.Step | src/lz77.c:257-311 | one literal or match token applied to the window keeps it well formed, and fails only because the output is full |
| DecoderSpec.DecodeLoop | src/lz77.c:257-312 | the decoder loop, token by token up to the end marker; whatever it returns fits the output capacity |
| DecoderSpec.LiteralTurn | src/lz77.c:258-272 | after flag bit 0, decoding reads a character field, stores it as a byte, then carries on |
| DecoderSpec.EndTurn | src/lz77.c:274-283 | on the end marker's length field the decoder returns the flushed bytes and the first i window bytes, or fails if they exceed the capacity |
| DecoderSpec.MatchTurn | src/lz77.c:274-285 | after flag bit 1 and a length other than the marker's, decoding reads the distance and copies k bytes from `(i - dist) & (tam_diccionario - 1)` |
| DecoderSpec.CopyTurn | src/lz77.c:286-298 | one copy step stores the source byte, advances the cursor and flushes the whole window when the cursor reaches its end |
| DecoderSpec.SuccMask | src/lz77.c:288 | `(j + 1) & (tam_diccionario - 1)` is the next window slot, wrapping at the end |
| DecoderSpec.CopySource | src/lz77.c:284 | the source slot computed with 32-bit wrap-around and the mask is the slot dist positions behind the cursor, wrapping |
| DecoderSpec.CutTurn | src/lz77.c:55-59 | when the input ends inside a token, the decoder fails with input exhausted |
| DecoderSpec.EmitTracks | src/lz77.c:263-272 | a stored byte extends the history the window stands for by that byte; storing fails only when that history exceeds the capacity |
| DecoderSpec.SourceByte | src/lz77.c:284-287 | the window byte dist slots behind the cursor is the history byte dist positions from its end |
| DecoderSpec.CopyLoopTracks | src/lz77.c:284-310 | the window's byte-by-byte match copy extends the history exactly as CopyBack does, and fails only when that exceeds the capacity |
| DecoderSpec.StepTracks | src/lz77.c:257-311 | one literal or match token moves the window to the state of the replayed history |
| DecoderSpec.DecodeEnd | src/lz77.c:274-283 | on the end marker the decoder returns exactly the tracked history, when it fits |
| DecoderSpec.DecodeToken | src/lz77.c:257-311 | decoding a token's bits is one Step followed by decoding the rest |
| DecoderSpec.DecodeLoopReplays | src/lz77.c:257-312 | decoding the bits of a token sequence and the end marker returns the replay of the tokens, or output-full when the replay exceeds the capacity |
| DecoderSpec.DecodeSpec | src/lz77.c:247-313 | `DecodificarBuffer` as a function of the input bytes, the initial window and the capacity; whatever it returns fits the capacity |
| DecoderSpec.DecodeStreamReplays | src/lz77.c:247-313 | the same, for a byte buffer holding the token bits, the marker and zero padding, from any initial window contents |
| EncoderSpec.FollowBehind | src/lz77.c:139 | under the chain invariant, every slot reached by following links holds an older input position still inside the window |
| EncoderSpec.ReachableBehind | src/lz77.c:138-153 | every candidate the match finder can reach within its comparisons lies behind the current position and within the window |
| EncoderSpec.MatchSound | src/lz77.c:141-147 | window bytes that agree at a candidate slot are input bytes that agree at the candidate's distance |
| EncoderSpec.Distance | src/lz77.c:204 | `(i - candidate) & (tam_diccionario - 1)` is the true input distance to the candidate, for a candidate on either side of the cursor |
| EncoderSpec.EvictTest | src/lz77.c:109 | `(entry & mascara_sector) == posicion` holds exactly for entries naming a slot of the sector at posicion; the none marker never passes |
| EncoderSpec.EvictMeaning | src/lz77.c:106-114 | clearing the entries that pass the mask test is clearing exactly those naming the sector being reused |
| EncoderSpec.EvictKeepsChains | src/lz77.c:106-114 | after clearing the entries naming a sector, the chains reach only positions newer than that sector's old bytes |
| EncoderSpec.EvictedChains | src/lz77.c:106-114 | the eviction keeps the chain invariant, with the oldest reachable position moved up one sector, and keeps every entry in range |
| EncoderSpec.EvictedTables | src/lz77.c:228-229 | eviction keeps all the encoder's table invariants, for a window whose oldest sector is dropped |
| EncoderSpec.LoadKeepsChains | src/lz77.c:94-103 | loading bytes into the sector does not break the chain invariant |
| EncoderSpec.LoadKeepsWindow | src/lz77.c:98-99 | after the copy, every filled window slot, old or new, holds the input byte at its position |
| EncoderSpec.LoadMirrors | src/lz77.c:100-101 | the tail behind the window repeats its head, whether it was copied now (sector 0) or earlier |
| EncoderSpec.EmptyTables | src/lz77.c:82-91 | tables whose every entry is the none marker meet the encoder's invariants before any input is loaded |
| EncoderSpec.InsertKeepsChains | src/lz77.c:126-127 | putting a slot at the head of its bucket, linked to the old head, keeps the chain invariant |
| EncoderSpec.BucketInRange | src/lz77.c:126 | the bucket index computed from a masked value and a character below 2^bits_hash is below tam_hash |
| EncoderSpec.Roll | src/lz77.c:123-128 | the rolling hash `((hash << bits_desplazamiento) & mascara_hash) ^ character` over count slots gives one bucket per slot (RollBound bounds them) |
| EncoderSpec.Insert | src/lz77.c:126-127 | links[slot] = hash[bucket], hash[bucket] = slot for each slot in turn; the tables keep their sizes (InsertChains and InsertRange state what they then hold) |
| EncoderSpec.RollBound | src/lz77.c:126 | every rolling-hash bucket index is below 2^bits_hash when the characters are |
| EncoderSpec.Buckets | src/lz77.c:123-128 | the bucket sequence of a sector has one index per hashed slot, each below tam_hash |
| EncoderSpec.RollInsert | src/lz77.c:125-128 | one step of the hashing loop is the first insertion of the sequence of insertions it performs |
| EncoderSpec.Clear | src/lz77.c:117-122 | exactly the slots in the given range lose their link; all other entries are unchanged |
| EncoderSpec.InsertChains | src/lz77.c:125-128 | inserting the sector's slots in increasing order keeps the chain invariant and extends it to the inserted slots |
| EncoderSpec.InsertRange | src/lz77.c:125-128 | the insertions keep every entry in range and leave the links of the other slots unchanged |
| EncoderSpec.HashedChains | src/lz77.c:115-130 | after hashing a sector the chains are valid up to its end, its last umbral slots have no link, and other slots keep their links |
| EncoderSpec.SectorReady | src/lz77.c:115-130 | hashing a freshly loaded sector leaves valid, in-range chains in which the sector's last umbral slots carry no link |
| EncoderSpec.LoadHashReady | src/lz77.c:230-232 | loading then hashing a sector establishes the parse invariant for its bytes |
| EncoderSpec.Common | src/lz77.c:142-144 | the compared length never exceeds max_coincidencia |
| EncoderSpec.CommonAgrees | src/lz77.c:142-144 | the first Common bytes agree at the two slots, and when it stops short of the cap the next bytes differ |
| EncoderSpec.LongestMeans | src/lz77.c:138-153 | no candidate within the searched links shares more than the reported length |
| EncoderSpec.LongestBelow | src/lz77.c:145-147 | a length strictly above the best of the first steps links makes the slot at link steps + 1 the first of its length |
| EncoderSpec.FirstLongestMeans | src/lz77.c:145-147 | FirstLongest at link `at`: every slot reached in fewer links matches fewer than the given length |
| EncoderSpec.LinkedRoom | src/lz77.c:121-122 | a slot that carries a link lies more than umbral slots before the end of the loaded bytes |
| EncoderSpec.LiteralStep | src/lz77.c:192-193 | sending the next input byte as a literal encodes one more input byte |
| EncoderSpec.MatchStep | src/lz77.c:204-206 | a match whose bytes equal those dist back encodes len more input bytes |
| EncoderSpec.WindowMatch | src/lz77.c:204 | a reachable candidate whose window bytes agree for len bytes gives a distance in range, and the input bytes agree at that distance |
| EncoderSpec.ParsedMatch | src/lz77.c:185 | the same for the lazy parse's candidate: the masked distance points at equal input bytes |
| EncoderSpec.MatchEncodes | src/lz77.c:185-187 | sending the found match, cut to any length up to its compared length, keeps the bits-and-tokens invariant and encodes len more input bytes |
| EncoderSpec.Oldest | src/lz77.c:227-238 | before the first wrap the oldest reachable position is 0; afterwards it is one window behind the fill point |
| EncoderSpec.NextSector | src/lz77.c:234-238 | advancing by one sector stays sector-aligned and, before the wrap, leaves room for a whole sector |
| EncoderSpec.WrapKeeps | src/lz77.c:235-238 | after a full window, renumbering it as the next cycle's slot 0 keeps the window-holds and chain invariants |
| EncoderSpec.Padded | src/lz77.c:241-242 | padding makes the stream a whole number of bytes, adds fewer than 8 bits and keeps every bit already sent |
| EncoderSpec.PadPending | src/lz77.c:241-242 | with pending bits, padding appends 8 - bits_en zero bits |
| EncoderSpec.PadFlushed | src/lz77.c:241 | with no pending bit, the output already holds exactly the bits sent and nothing is added |
| Codec.Session.constructor | example/code.c:57-60 | the window has tam_diccionario + max_coincidencia bytes, the hash table tam_hash entries and the link table tam_diccionario entries |
| Codec.Session.SendBits | src/lz77.c:36-49 | the bits sent grow by the w bits of v, least significant first; it fails exactly when a completed byte has no room left in the output |
| Codec.Session.ReadBits | src/lz77.c:52-68 | it succeeds exactly when w bits remain, returning the next w-bit field and consuming exactly those bits |
| Codec.Session.SendMatch | src/lz77.c:71-75 | on success the match token's bits are sent; on failure the output is full |
| Codec.Session.SendLiteral | src/lz77.c:76-79 | on success the literal token's bits are sent; on failure the output is full |
| Codec.Session.InitEncoder | src/lz77.c:82-91 | the bit accumulator is empty and every bucket head and every link is the none marker |
| Codec.Session.LoadSector | src/lz77.c:94-103 | copies exactly min(tam_sector, bytes left) input bytes to the sector, advances the input by that much, mirrors the window head into the tail when loading sector 0, and changes no other window byte |
| Codec.Session.EvictSector | src/lz77.c:106-114 | exactly the links and bucket heads that pass the sector-mask test become the none marker; every other entry is unchanged |
| Codec.Session.EvictEntries | src/lz77.c:108-110 | one table pass of the eviction: exactly the entries that pass the mask test are cleared |
| Codec.Session.HashSector | src/lz77.c:115-130 | the last min(umbral, bytes) slots lose their links; each earlier slot, in increasing order, is linked to its bucket's old head and becomes the head |
| Codec.Session.ClearLinks | src/lz77.c:117-122 | exactly the links of the given slots become the none marker |
| Codec.Session.HashSlots | src/lz77.c:123-128 | the hashing loop's table writes are the insertions, in order, of the slots at the rolling-hash buckets, and every bucket index is in range |
| Codec.Session.CommonLength | src/lz77.c:142-144 | returns the number of leading bytes on which the two slots agree, capped at max_coincidencia |
| Codec.Session.Candidate | src/lz77.c:141-151 | the best length becomes the candidate's compared length when that is longer and stays otherwise; the quick test on byte `l` loses no longer candidate |
| Codec.Session.FindMatch | src/lz77.c:131-154 | the length stays in [longitud_inicial, max_coincidencia]; the best slot is left alone unless a strictly longer match is found, and then it is the slot reached after some `at` links within max_comparaciones, agrees for the reported length, and every slot reached in fewer links matches fewer bytes, so ties go to the first candidate on the chain; no candidate within those links is longer |
| Codec.Session.Walk | src/lz77.c:138-153 | the chain walk returns a length in [longitud_inicial, max_coincidencia] that no candidate within the first max_comparaciones links exceeds; a longer length comes with the candidate reached after some `at` of those links, whose compared length it is, and every candidate reached in fewer links matches strictly fewer bytes |
| Codec.Session.PutLiteral | src/lz77.c:192-193 | appends Literal(diccionario[i]) to the earlier tokens, unchanged, advances i by one and j back by one, and the tokens sent encode one more input byte |
| Codec.Session.PutMatch | src/lz77.c:185-187 | appends Match(len, dist) to the earlier tokens, unchanged, where the returned dist is (i - c) & (tam_diccionario - 1) in 32-bit arithmetic; advances i by len and j back by len, and the tokens sent encode len more input bytes |
| Codec.Session.MatchDistance | src/lz77.c:185 | returns `(i - posicion1) & (tam_diccionario - 1)` with the subtraction wrapped to 32 bits; the distance lies in the window, and the match token built with it encodes the next len input bytes |
| Codec.Session.GreedyParse | src/lz77.c:197-211 | the greedy parse sends tokens that encode exactly the sector's bytes, or the output fills |
| Codec.Session.GreedyStep | src/lz77.c:200-210 | one greedy turn consumes at least one byte and keeps the tokens encoding the input up to the new slot |
| Codec.Session.LazyParse | src/lz77.c:161-195 | the lazy parse sends tokens that encode exactly the sector's bytes, or the output fills |
| Codec.Session.LazyStep | src/lz77.c:165-194 | one lazy turn consumes at least one byte and keeps the tokens encoding the input up to the new slot |
| Codec.Session.LazyMatch | src/lz77.c:169-190 | the inner `for (;;)` consumes at least one byte and keeps the tokens encoding the input up to the new slot |
| Codec.Session.LazyTurn | src/lz77.c:170-189 | one pass of the inner loop consumes bytes, keeps the encoding invariant, and when it continues holds a candidate match for the new slot |
| Codec.Session.Rival | src/lz77.c:170-171 | the search at the next slot beats the candidate exactly when it finds a longer match, and then that match is a valid candidate with room after it |
| Codec.Session.Overtake | src/lz77.c:172-175 | appends Literal(diccionario[i]) to the earlier tokens, unchanged, moves i exactly one slot, and the longer match becomes the candidate there |
| Codec.Session.Settle | src/lz77.c:177-188 | the candidate, cut to the bytes left, still exceeds umbral, so the literal branch after the cut never runs; Match(len1, dist), with the cut length len1 and the returned dist = (i - posicion) & (tam_diccionario - 1), is appended to the earlier tokens, unchanged, and i advances by len1 |
| Codec.Session.SearchDictionary | src/lz77.c:157-213 | either parse sends tokens encoding exactly the sector's bytes, or the output fills; the window and tables are unchanged |
| Codec.Session.LoadAndHash | src/lz77.c:230-232 | loading and hashing a sector returns 0 exactly when the input is exhausted; otherwise the tables meet the parse invariant for the loaded bytes |
| Codec.Session.HashStep | src/lz77.c:232 | hashing the freshly loaded sector establishes the parse invariant and keeps the window, mirror and chain invariants |
| Codec.Session.EvictStep | src/lz77.c:228-229 | clearing a marked sector keeps the tables valid, with the oldest reachable position moved up one sector |
| Codec.Session.PrepareSector | src/lz77.c:228-232 | evict, load and hash: 0 bytes exactly when the input is exhausted, otherwise the tables hold the loaded input |
| Codec.Session.CompressSector | src/lz77.c:228-233 | one turn of the sector loop either finds the input exhausted or encodes the loaded sector, keeping the table invariants; it fails only when the output is full |
| Codec.Session.Advance | src/lz77.c:234-238 | the slot moves on by one sector and, at the end of the window, wraps to 0 and marks sectors for eviction, keeping the loop invariant |
| Codec.Session.EncodeSectors | src/lz77.c:224-239 | the sector loop ends with the whole input read and encoded by the tokens sent, or with the output full |
| Codec.Session.SendEnd | src/lz77.c:240-242 | sends the end marker then pads to a byte boundary, leaving the output equal to the bits sent |
| Codec.Session.Flush | src/lz77.c:241-242 | the pending bits go out padded with zeros to a whole byte, and the output then holds exactly the bits sent |
| Codec.Session.Compress | src/lz77.c:216-244 | on success returns the output length, within the capacity, and the output is the padded bits of tokens that replay to the input, then the end marker; on failure the output was full |
| Codec.Session.Store | src/lz77.c:263-272 | storing a byte at the cursor moves the window exactly as the decoder loop's Emit does, flushing on a full window, and fails exactly when Emit does |
| Codec.Session.DecodeLiteral | src/lz77.c:258-272 | the literal branch ends, or continues, exactly as the decoder loop does from that state, and consumes input |
| Codec.Session.DecodeMatch | src/lz77.c:273-311 | the match branch, including the end marker, ends or continues exactly as the decoder loop does, and consumes input |
| Codec.Session.CopyMatch | src/lz77.c:285-310 | the three copy loops together perform exactly the decoder loop's match copy |
| Codec.Session.CopyWrapping | src/lz77.c:286-298 | the copy that reaches the window's end flushes the window on the way, as the decoder loop does, and fails exactly when it does |
| Codec.Session.CopyWrapSource | src/lz77.c:301-304 | the copy whose source wraps at the window's end performs the decoder loop's copy |
| Codec.Session.CopyStraight | src/lz77.c:306-308 | the copy with no wrap performs the decoder loop's copy |
| Codec.Session.DecodeTurn | src/lz77.c:257-312 | one turn of the decoder loop either finishes with the loop's outcome or keeps that outcome ahead and consumes input |
| Codec.Session.Decompress | src/lz77.c:247-313 | the result and the output bytes are exactly those of the decoder loop over the input's bits: the decoded bytes and their count, or input exhausted, or output full |
| Codec.RoundTrip | src/lz77.c:216-313 | decoding a stream that the encoder produced returns exactly the original bytes when they fit the capacity, and reports output-full otherwise |
| Codec.Session.CompressDecompress | example/code.c:73-90 | compressing into a buffer twice the input's size and decompressing into one of the input's size returns the input; the only failure is a full compression buffer |

## Left out

- File I/O, `malloc`/`free` and `printf` reporting in `example/code.c` are not modelled. The
  sequence at `example/code.c:73-90` is modelled, and so is the sizing of the buffers.
- `fprintf(stderr, …)` followed by `exit(EXIT_FAILURE)`, in the writer and in the reader,
  becomes a failed result. The model does not describe what the process does next.
- Codec.Session.SendBits: requires the value to fit its width. The C code would OR the
  excess bits into the following fields. Every caller passes a fitting value. The one
  exception is a literal byte of `2^bits_caracter` or more, which `Fits` excludes from
  the input.
- Codec.Session.Compress: requires every input byte to be below `2^bits_caracter` (`Fits`).
  With the default 8-bit characters this holds for every input. For narrower characters
  the C code corrupts the stream.
- Codec.Session.Compress: on failure it states only that the output filled up. The tables
  and cursors left behind are not described, because the C code exits at that point.
- Pointer plumbing is not modelled. The caller's buffers become sequences, and the
  window, hash and link tables become arrays owned by the session, so aliasing between
  them does not arise.
- Window bytes beyond the loaded region, which the C code leaves uninitialised, are
  arbitrary in the model. No property depends on them: the match comparison may read
  them, but only the agreed prefix within the loaded bytes is ever sent.
- The decoder's window-overflow test (`src/lz77.c:259-262`) is not a branch of the model.
  The cursor stays below `tam_diccionario`, so the test never fires; the proof of
  Codec.Session.DecodeLiteral relies on that.
- The lazy parse's literal branch after cutting a match (`src/lz77.c:179-183`) is not a
  branch of the model. Codec.Session.Settle proves that the cut length always exceeds
  `umbral`: a slot with a link lies more than `umbral` slots before the end of the
  sector.
- 32-bit unsigned arithmetic is modelled where it takes effect: the wrapped difference
  `i - dist` in the distances of both the encoder and the decoder. The sector mask's
  `0xFFFF << bit_sector` (`src/lz77.c:19`) stays below 2^31, since `bit_sector` is at most
  15; every other shift, mask and xor in the codec stays below 2^24. Truncation therefore
  never applies there. Inputs of
  2^32 bytes or more, where `in_pos` and `out_pos` would wrap, are not considered.
- The `int` return values (`-1` for failure) become `Result` values.
- Compression ratio and speed, including greedy against lazy quality and the effect of
  `max_comparaciones`, are not correctness properties and are not modelled.
- There is no concurrency. The shared globals become one session object.

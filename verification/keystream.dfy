/** The keystream generator of `PasswordGenerator`: a 128-bit counter, a
    ciphertext-feedback block advance, a cursor-driven byte draw, the durable
    record rewritten on every advance, and the state load.

    The AES-256 block transform is a parameter `enc` (any total function from a
    32-byte key and a 16-byte block to a 16-byte block), and the seeded
    Mersenne-Twister engines are a parameter `rnd`, where `rnd(id, k)` is the
    `k`-th 64-bit output of the engine created with sequence number `id`. */
module Keystream {
  import opened Bytes
  import opened Wrappers

  /** `AES256::KEY_LENGTH` and `AES256::BLOCK_LENGTH`. */
  const KEY_LENGTH: nat := 32
  const BLOCK_LENGTH: nat := 16

  const MAX_WORD: Word64 := 0xFFFF_FFFF_FFFF_FFFF
  const COUNTER_MODULUS: nat := 0x1_0000_0000_0000_0000_0000_0000_0000_0000

  type Key = s: seq<Byte> | |s| == KEY_LENGTH witness seq(32, i => 0)
  type Block = s: seq<Byte> | |s| == BLOCK_LENGTH witness seq(16, i => 0)

  /** `AES256::ecbEncrypt` under a key. */
  type Cipher = (Key, Block) -> Block

  /** The word supply of the seeding engines. */
  type WordSupply = (nat, nat) -> Word64

  /** `Counter`: the two 64-bit words `b[0]` (low) and `b[1]` (high). */
  datatype Counter = Counter(lo: Word64, hi: Word64)

  function Value(c: Counter): nat {
    c.hi * 0x1_0000_0000_0000_0000 + c.lo
  }

  /** `Counter::operator++`: adds one modulo 2^128, carrying out of the low word. */
  function Increment(c: Counter): (r: Counter)
    ensures Value(r) == (Value(c) + 1) % COUNTER_MODULUS
    ensures c.lo == MAX_WORD ==> r.lo == 0 && r.hi == (c.hi + 1) % WORD_SIZE
    ensures c.lo != MAX_WORD ==> r.hi == c.hi && r.lo == c.lo + 1
  {
    if c.lo == MAX_WORD then Counter(0, (c.hi + 1) % WORD_SIZE)
    else Counter(c.lo + 1, c.hi)
  }

  /** `Counter::operator[]` over all sixteen positions. The source reads the
      bytes through a union with the two words, so their order is the host's;
      the model fixes little-endian: bytes 0..7 are the low word, least
      significant first, and bytes 8..15 the high word. */
  function CounterBytes(c: Counter): (r: Block)
    ensures r[..8] == LeBytes(c.lo, 8) && r[8..] == LeBytes(c.hi, 8)
  {
    LeBytes(c.lo, 8) + LeBytes(c.hi, 8)
  }

  /** Read as one little-endian number, the sixteen bytes are the counter's value. */
  lemma CounterBytesValue(c: Counter)
    ensures LeValue(CounterBytes(c)) == Value(c)
  {
    var lo, hi := LeBytes(c.lo, 8), LeBytes(c.hi, 8);
    assert CounterBytes(c) == lo + hi;
    Pow256Eight();
    LeValueAppend(lo, hi);
    LeValueOfBytes(c.lo, 8);
    LeValueOfBytes(c.hi, 8);
    LemmaModUnique(c.lo, WORD_SIZE, 0, c.lo);
    LemmaModUnique(c.hi, WORD_SIZE, 0, c.hi);
    assert LeValue(lo + hi) == c.lo + WORD_SIZE * c.hi;
  }

  /** Reading the two words back from the sixteen bytes. */
  function CounterOfBytes(b: Block): Counter {
    LeValueBound(b[..8]);
    LeValueBound(b[8..]);
    Pow256Eight();
    Counter(LeValue(b[..8]), LeValue(b[8..]))
  }

  lemma CounterBytesRoundTrip(c: Counter)
    ensures CounterOfBytes(CounterBytes(c)) == c
  {
    var b := CounterBytes(c);
    assert b[..8] == LeBytes(c.lo, 8) && b[8..] == LeBytes(c.hi, 8);
    LeValueOfBytes(c.lo, 8);
    LeValueOfBytes(c.hi, 8);
    Pow256Eight();
    LemmaModUnique(c.lo, WORD_SIZE, 0, c.lo);
    LemmaModUnique(c.hi, WORD_SIZE, 0, c.hi);
  }

  /** Distinct counter values mask the previous block with distinct bytes. */
  lemma CounterBytesInjective(c: Counter, d: Counter)
    requires CounterBytes(c) == CounterBytes(d)
    ensures c == d
  {
    CounterBytesRoundTrip(c);
    CounterBytesRoundTrip(d);
  }

  /** The durable record: key, counter and current block, written as one unit. */
  datatype Snapshot = Snapshot(key: Key, counter: Counter, block: Block)

  /** The generator's fields, the process-wide engine sequence number
      `gRndSequence_`, and the durable record (`None` when it is absent or
      cannot be read in full). `keyed` is `cipher.isInitialized()`; the cipher
      is always keyed with `key`. */
  datatype Generator = Generator(
    keyed: bool,
    key: seq<Byte>,
    counter: Counter,
    block: seq<Byte>,
    cursor: int,
    stored: Option<Snapshot>,
    engineSeq: nat)

  /** The record holds exactly the key, counter and block in use. */
  predicate Persisted(g: Generator) {
    && |g.key| == KEY_LENGTH
    && |g.block| == BLOCK_LENGTH
    && g.stored == Some(Snapshot(g.key, g.counter, g.block))
  }

  /** Before keying the data blocks are still empty; once keyed, key and block
      have their full lengths and the durable record matches them. */
  predicate Valid(g: Generator) {
    && 0 <= g.cursor <= BLOCK_LENGTH
    && (g.keyed ==> Persisted(g))
    && (!g.keyed ==> g.key == [] && g.block == [])
  }

  /** The constructor: empty data blocks, zero counter, cursor 0. */
  function NewGenerator(stored: Option<Snapshot>, engineSeq: nat): (g: Generator)
    ensures Valid(g) && !g.keyed
  {
    Generator(false, [], Counter(0, 0), [], 0, stored, engineSeq)
  }

  /** `generateNewBlock` (with `applyCounter` and `saveGeneratorState`):
      increment the counter, mask the previous block with the counter's bytes,
      encrypt under the unchanged key, persist, and rewind the cursor. */
  function AdvanceBlock(g: Generator, enc: Cipher): (r: Generator)
    requires Valid(g) && g.keyed
    ensures Valid(r) && r.keyed
    ensures r.key == g.key && r.engineSeq == g.engineSeq && r.cursor == 0
    ensures Value(r.counter) == (Value(g.counter) + 1) % COUNTER_MODULUS
    ensures r.block == enc(g.key, Xor(g.block, CounterBytes(r.counter)))
    ensures r.stored == Some(Snapshot(g.key, r.counter, r.block))
  {
    var c := Increment(g.counter);
    var b := enc(g.key, Xor(g.block, CounterBytes(c)));
    g.(counter := c, block := b, cursor := 0, stored := Some(Snapshot(g.key, c, b)))
  }

  /** `getNextRandomByte`: advance when the block is used up, then hand out the
      byte under the cursor and move the cursor on. */
  function NextByte(g: Generator, enc: Cipher): (r: (Byte, Generator))
    requires Valid(g) && g.keyed
    ensures Valid(r.1) && r.1.keyed && r.1.key == g.key && r.1.engineSeq == g.engineSeq
    ensures 1 <= r.1.cursor <= BLOCK_LENGTH
    ensures r.0 == r.1.block[r.1.cursor - 1]
    ensures g.cursor < BLOCK_LENGTH ==> r.1 == g.(cursor := g.cursor + 1) && r.0 == g.block[g.cursor]
    ensures g.cursor >= BLOCK_LENGTH ==> r.1 == AdvanceBlock(g, enc).(cursor := 1)
  {
    var h := if g.cursor >= BLOCK_LENGTH then AdvanceBlock(g, enc) else g;
    (h.block[h.cursor], h.(cursor := h.cursor + 1))
  }

  /** `n` block advances in a row. */
  function AdvanceTimes(g: Generator, enc: Cipher, n: nat): (r: Generator)
    requires Valid(g) && g.keyed
    ensures Valid(r) && r.keyed && r.key == g.key
  {
    if n == 0 then g else AdvanceBlock(AdvanceTimes(g, enc, n - 1), enc)
  }

  /** `n` increments of the counter. */
  function IncrementTimes(c: Counter, n: nat): Counter {
    if n == 0 then c else Increment(IncrementTimes(c, n - 1))
  }

  /** `n` advances leave the counter incremented exactly `n` times. */
  lemma {:induction false} AdvanceTimesIncrements(g: Generator, enc: Cipher, n: nat)
    requires Valid(g) && g.keyed
    ensures AdvanceTimes(g, enc, n).counter == IncrementTimes(g.counter, n)
  {
    if n > 0 {
      AdvanceTimesIncrements(g, enc, n - 1);
    }
  }

  /** `n` increments add exactly `n` modulo 2^128. */
  lemma {:induction false} IncrementTimesValue(c: Counter, n: nat)
    ensures Value(IncrementTimes(c, n)) == (Value(c) + n) % COUNTER_MODULUS
  {
    if n > 0 {
      var x := Value(IncrementTimes(c, n - 1));
      IncrementTimesValue(c, n - 1);
      ModStep(Value(c), n, COUNTER_MODULUS, x, Value(IncrementTimes(c, n)));
    }
  }

  /** `n` advances move the counter on by exactly `n` modulo 2^128. */
  lemma AdvanceTimesCounter(g: Generator, enc: Cipher, n: nat)
    requires Valid(g) && g.keyed
    ensures Value(AdvanceTimes(g, enc, n).counter) == (Value(g.counter) + n) % COUNTER_MODULUS
  {
    AdvanceTimesIncrements(g, enc, n);
    IncrementTimesValue(g.counter, n);
  }

  lemma ModStep(v: nat, n: nat, m: nat, x: nat, y: nat)
    requires m > 0 && n > 0
    requires x == (v + n - 1) % m && y == (x + 1) % m
    ensures y == (v + n) % m
  {
    ModAddOne(v + n - 1, m);
  }

  lemma ModAddOne(v: nat, m: nat)
    requires m > 0
    ensures (v % m + 1) % m == (v + 1) % m
  {
    var q, r := v / m, v % m;
    if r + 1 < m {
      LemmaModUnique(v + 1, m, q, r + 1);
    } else {
      LemmaModUnique(v + 1, m, q + 1, 0);
    }
  }

  /** Within 2^128 advances no counter value is used twice under the key. */
  lemma CountersNeverRepeat(g: Generator, enc: Cipher, i: nat, j: nat)
    requires Valid(g) && g.keyed
    requires i < j < COUNTER_MODULUS
    ensures AdvanceTimes(g, enc, i).counter != AdvanceTimes(g, enc, j).counter
  {
    AdvanceTimesIncrements(g, enc, i);
    AdvanceTimesIncrements(g, enc, j);
    IncrementTimesDistinct(g.counter, i, j);
  }

  lemma IncrementTimesDistinct(c: Counter, i: nat, j: nat)
    requires i < j < COUNTER_MODULUS
    ensures IncrementTimes(c, i) != IncrementTimes(c, j)
  {
    IncrementTimesValue(c, i);
    IncrementTimesValue(c, j);
    ModDistinct(Value(c), i, j, COUNTER_MODULUS);
  }

  lemma ModDistinct(v: nat, i: nat, j: nat, m: nat)
    requires i < j < m
    ensures (v + i) % m != (v + j) % m
  {
    var qa, qb := (v + i) / m, (v + j) / m;
    if (v + i) % m == (v + j) % m {
      assert j - i == m * qb - m * qa;
      assert j - i == m * (qb - qa);
      if qb - qa >= 1 {
        MulAtLeast(m, qb - qa);
      } else {
        MulAtLeast(m, 1 - (qb - qa));
      }
    }
  }

  /** One synthesised byte: the engine's `i / 8`-th word shifted right by
      `8 * (i % 8)` bits, the whole shifted word taken modulo 0xFF, as
      `DataBlock::initRandom` does. */
  function SynthByte(rnd: WordSupply, id: nat, i: nat): (r: Byte)
    ensures r < 0xFF
  {
    (rnd(id, i / 8) / Pow256(i % 8)) % 0xFF
  }

  /** The `len` bytes `DataBlock::initRandom` derives from engine `id`. */
  function SynthBytes(rnd: WordSupply, id: nat, len: nat): (r: seq<Byte>)
    ensures |r| == len
    ensures forall i :: 0 <= i < len ==> r[i] == SynthByte(rnd, id, i) && r[i] <= 254
  {
    if len == 0 then [] else SynthBytes(rnd, id, len - 1) + [SynthByte(rnd, id, len - 1)]
  }

  /** `DataBlock::initRandom`: draws a word every eighth byte and appends the
      derived bytes to whatever the block already holds. */
  method InitRandom(data: seq<Byte>, len: nat, rnd: WordSupply, id: nat) returns (r: seq<Byte>)
    ensures r == data + SynthBytes(rnd, id, len)
    ensures |r| == |data| + len
    ensures forall k :: |data| <= k < |r| ==> r[k] <= 254
  {
    r := data;
    var wi := 0;
    var v: Word64 := 0;
    var draws := 0;
    var i := 0;
    while i < len
      invariant 0 <= i <= len && 0 <= wi < 8
      invariant wi == 0 ==> i == 8 * draws
      invariant wi != 0 ==> draws > 0 && i == 8 * (draws - 1) + wi && v == rnd(id, draws - 1)
      invariant r == data + SynthBytes(rnd, id, i)
    {
      if wi == 0 {
        v := rnd(id, draws);
        draws := draws + 1;
      }
      SynthStep(rnd, id, i, draws, wi, v);
      r := r + [(v / Pow256(wi)) % 0xFF];
      wi := wi + 1;
      if wi == 8 {
        wi := 0;
      }
      i := i + 1;
    }
  }

  /** Byte `i` comes from word `draws - 1` when `i` sits at offset `wi` in it. */
  lemma SynthStep(rnd: WordSupply, id: nat, i: nat, draws: nat, wi: nat, v: Word64)
    requires wi < 8 && draws > 0 && i == 8 * (draws - 1) + wi && v == rnd(id, draws - 1)
    ensures SynthBytes(rnd, id, i + 1) == SynthBytes(rnd, id, i) + [(v / Pow256(wi)) % 0xFF]
  {
    LemmaModUnique(i, 8, draws - 1, wi);
  }

  /** `Counter::initRandom`: the first two words of a fresh engine. */
  function RandomCounter(rnd: WordSupply, id: nat): (r: Counter)
    ensures Value(r) == rnd(id, 0) + WORD_SIZE * rnd(id, 1)
  {
    Counter(rnd(id, 0), rnd(id, 1))
  }

  /** `loadGeneratorState`: adopt the durable record whole when it reads back,
      otherwise synthesise key, counter and block from three fresh engines and
      save them at once. */
  function LoadState(g: Generator, rnd: WordSupply): (r: Generator)
    requires Valid(g) && !g.keyed
    ensures Persisted(r) && !r.keyed && r.cursor == g.cursor
    ensures g.stored.Some? ==>
      r.stored == g.stored && r.engineSeq == g.engineSeq
    ensures g.stored.None? ==>
      && r.key == SynthBytes(rnd, g.engineSeq, KEY_LENGTH)
      && r.counter == RandomCounter(rnd, g.engineSeq + 1)
      && r.block == SynthBytes(rnd, g.engineSeq + 2, BLOCK_LENGTH)
      && r.engineSeq == g.engineSeq + 3
  {
    match g.stored
    case Some(s) => g.(key := s.key, counter := s.counter, block := s.block)
    case None =>
      var key := g.key + SynthBytes(rnd, g.engineSeq, KEY_LENGTH);
      var counter := RandomCounter(rnd, g.engineSeq + 1);
      var block := g.block + SynthBytes(rnd, g.engineSeq + 2, BLOCK_LENGTH);
      g.(key := key, counter := counter, block := block,
         stored := Some(Snapshot(key, counter, block)), engineSeq := g.engineSeq + 3)
  }

  /** How far the read transaction of `loadGeneratorState` gets: the file
      does not open or its key does not read, the key reads but the counter
      or the block after it does not, or the whole record reads. */
  datatype StateRead = Unreadable | KeyOnly(key: Key) | Whole(record: Snapshot)

  /** The durable record as `LoadState` sees it: only a whole record. */
  function RecordOf(read: StateRead): Option<Snapshot> {
    if read.Whole? then Some(read.record) else None
  }

  /** `loadGeneratorState` as written, for the key, counter and block it
      leaves. A failed `commitTransaction` rewinds the file, not the fields:
      a key that read stays in `cipherKey_`, the failed reads leave the
      block empty, and the three `initRandom` calls then append fresh bytes
      to the key, overwrite the counter and refill the block. */
  function LoadedAsWritten(read: StateRead, rnd: WordSupply, engineSeq: nat): (seq<Byte>, Counter, seq<Byte>) {
    match read
    case Whole(s) => (s.key, s.counter, s.block)
    case _ =>
      var kept: seq<Byte> := if read.KeyOnly? then read.key else [];
      (kept + SynthBytes(rnd, engineSeq, KEY_LENGTH), RandomCounter(rnd, engineSeq + 1),
       SynthBytes(rnd, engineSeq + 2, BLOCK_LENGTH))
  }

  /** Apart from a record that fails after its key, the load as written is
      `LoadState` on the record that reads whole. */
  lemma LoadedAsWrittenElsewhere(g: Generator, read: StateRead, rnd: WordSupply)
    requires Valid(g) && !g.keyed && g.stored == RecordOf(read) && !read.KeyOnly?
    ensures var l := LoadState(g, rnd);
      LoadedAsWritten(read, rnd, g.engineSeq) == (l.key, l.counter, l.block)
  {
  }

  /** As written, a record that fails after its key leaves a key of 64
      bytes, the stored key followed by 32 fresh ones, where `LoadState`
      keys the cipher with 32 fresh bytes. */
  lemma PartialRecordDoublesKey(g: Generator, read: StateRead, rnd: WordSupply)
    requires Valid(g) && !g.keyed && g.stored == RecordOf(read) && read.KeyOnly?
    ensures var key := LoadedAsWritten(read, rnd, g.engineSeq).0;
      && |key| == 2 * KEY_LENGTH && key[..KEY_LENGTH] == read.key
      && |LoadState(g, rnd).key| == KEY_LENGTH
  {
    var key := LoadedAsWritten(read, rnd, g.engineSeq).0;
    assert key == read.key + SynthBytes(rnd, g.engineSeq, KEY_LENGTH);
  }

  /** `initCipher`: nothing once keyed; otherwise load the state, key the
      cipher, force the cursor to the end and advance one block. */
  function InitCipher(g: Generator, enc: Cipher, rnd: WordSupply): (r: Generator)
    requires Valid(g)
    ensures Valid(r) && r.keyed
    ensures g.keyed ==> r == g
    ensures !g.keyed ==>
      var l := LoadState(g, rnd);
      r.key == l.key && r.engineSeq == l.engineSeq && r.cursor == 0 && r.counter == Increment(l.counter)
  {
    if g.keyed then g
    else AdvanceBlock(LoadState(g, rnd).(keyed := true, cursor := BLOCK_LENGTH), enc)
  }

  /** The first block of an unkeyed generator: the loaded counter moves on
      by one, the loaded block is masked with it and encrypted under the
      loaded key, and the result is persisted. */
  lemma InitCipherAdvancesLoaded(g: Generator, enc: Cipher, rnd: WordSupply)
    requires Valid(g) && !g.keyed
    ensures var r, l := InitCipher(g, enc, rnd), LoadState(g, rnd);
      && Value(r.counter) == (Value(l.counter) + 1) % COUNTER_MODULUS
      && r.block == enc(l.key, Xor(l.block, CounterBytes(r.counter)))
      && r.stored == Some(Snapshot(r.key, r.counter, r.block))
  {
  }

  /** A restart from the record persisted at `g` continues with the very block
      `g` itself would produce next; restarting from an older record therefore
      reproduces blocks that were already handed out. */
  lemma RestartResumesFromRecord(g: Generator, enc: Cipher, rnd: WordSupply, engineSeq: nat)
    requires Valid(g) && g.keyed
    ensures
      var h := InitCipher(NewGenerator(g.stored, engineSeq), enc, rnd);
      var a := AdvanceBlock(g, enc);
      h.key == a.key && h.counter == a.counter && h.block == a.block
      && h.stored == a.stored && h.cursor == a.cursor
  {
  }

  /** The first use keys the cipher from the record and advances once, with the
      counter one past the stored value. */
  lemma FirstInitAdvancesOnce(g: Generator, enc: Cipher, rnd: WordSupply)
    requires Valid(g) && !g.keyed && g.stored.Some?
    ensures
      var r := InitCipher(g, enc, rnd);
      r.key == g.stored.value.key && r.cursor == 0
      && Value(r.counter) == (Value(g.stored.value.counter) + 1) % COUNTER_MODULUS
  {
  }
}

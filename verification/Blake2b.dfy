/** Buffering of BLAKE2b (blake2b/blake2b.go and the outer loop of block.go) against section 3.3 of
    RFC 7693. The compression function F of section 3.2 is a parameter. */
module Blake2b {
  import opened Types
  import opened Sealing

  const BLOCK_SIZE := 128
  const SIZE := 64
  const KEY_SIZE := 64
  const SALT_SIZE := 16
  const PERSON_SIZE := 16
  const ONES: bv64 := 0xffffffffffffffff

  /** The number of values of a 64-bit word. */
  const WORD: int := 0x1_0000_0000_0000_0000

  /** A chain value. */
  type Words = s: seq<bv64> | |s| == 8 witness [0, 0, 0, 0, 0, 0, 0, 0]

  /** F of section 3.2: chain value, message block, the two words of the counter, the two of the flags. */
  type Compression = (Words, seq<bv8>, int, int, bv64, bv64) -> Words

  // ---------------------------------------------------------------------------
  // Section 3.3

  /** F with a counter of 128 bits and a flag for the last block. */
  function Feed(F: Compression, h: Words, m: seq<bv8>, t: int, last: bool): Words {
    F(h, m, t % WORD, t / WORD % WORD, if last then ONES else 0, 0)
  }

  /** The chain value after i blocks of the data. */
  function Chain(F: Compression, h: Words, data: seq<bv8>, i: nat): Words
    requires BLOCK_SIZE * i <= |data|
  {
    if i == 0 then h
    else Feed(F, Chain(F, h, data, i - 1), data[BLOCK_SIZE * (i - 1)..BLOCK_SIZE * i], BLOCK_SIZE * i, false)
  }

  function Zeros(n: nat): (z: seq<bv8>)
    ensures |z| == n && forall i :: 0 <= i < n ==> z[i] == 0
  {
    seq(n, _ => 0)
  }

  /** The number of blocks; an empty input has one. */
  function BlockCount(n: nat): (dd: nat)
    ensures dd >= 1 && BLOCK_SIZE * (dd - 1) <= n <= BLOCK_SIZE * dd
    ensures dd > 1 ==> BLOCK_SIZE * (dd - 1) < n
  {
    if n == 0 then 1 else (n + BLOCK_SIZE - 1) / BLOCK_SIZE
  }

  function Padded(data: seq<bv8>): (d: seq<bv8>)
    ensures |d| == BLOCK_SIZE * BlockCount(|data|) && data <= d
  {
    data + Zeros(BLOCK_SIZE * BlockCount(|data|) - |data|)
  }

  /** The last chain value for an input whose key block, if any, stands before the message. */
  function LastChain(F: Compression, h: Words, data: seq<bv8>): Words {
    var dd := BlockCount(|data|);
    Feed(F, Chain(F, h, Padded(data), dd - 1), Padded(data)[BLOCK_SIZE * (dd - 1)..], |data|, true)
  }

  /** The bytes of a word, the least significant one first. */
  function Split(w: bv64): (b: seq<bv8>)
    ensures |b| == 8
  {
    [(w & 0xff) as bv8, ((w >> 8) & 0xff) as bv8, ((w >> 16) & 0xff) as bv8, ((w >> 24) & 0xff) as bv8,
     ((w >> 32) & 0xff) as bv8, ((w >> 40) & 0xff) as bv8, ((w >> 48) & 0xff) as bv8, ((w >> 56) & 0xff) as bv8]
  }

  /** The bytes of the first n words. */
  function AllBytes(h: Words, n: nat): (b: seq<bv8>)
    requires n <= 8
    ensures |b| == 8 * n
  {
    if n == 0 then [] else AllBytes(h, n - 1) + Split(h[n - 1])
  }

  lemma {:induction false} AllBytesPrefix(h: Words, n: nat, m: nat)
    requires n <= m <= 8
    ensures AllBytes(h, n) <= AllBytes(h, m)
  {
    if n < m {
      AllBytesPrefix(h, n, m - 1);
      assert AllBytes(h, m) == AllBytes(h, m - 1) + Split(h[m - 1]);
    }
  }

  /** The first n bytes of a chain value. */
  function Bytes(h: Words, n: nat): (out: seq<bv8>)
    requires n <= SIZE
    ensures |out| == n
  {
    AllBytes(h, 8)[..n]
  }

  function IV(): Words {
    [0x6a09e667f3bcc908, 0xbb67ae8584caa73b, 0x3c6ef372fe94f82b, 0xa54ff53a5f1d36f1,
     0x510e527fade682d1, 0x9b05688c2b3e6c1f, 0x1f83d9abfb41bd6b, 0x5be0cd19137e2179]
  }

  const FIRST_PRIMES: seq<nat> := [2, 3, 5, 7, 11, 13, 17, 19]

  /** f consists of the first 64 bits of the fractional part of the square root of p. */
  ghost predicate RootBits(p: nat, f: nat) {
    exists k: nat :: RootIs(p, k, f)
  }

  predicate RootIs(p: nat, k: nat, f: nat) {
    var n := k * WORD + f;
    f < WORD && k * k <= p < (k + 1) * (k + 1) && n * n <= p * WORD * WORD < (n + 1) * (n + 1)
  }

  /** The initial values are those of section 2.6 of RFC 7693: they come from the first eight primes. */
  lemma RootsOfPrimes(i: nat)
    requires i < 8
    ensures RootBits(FIRST_PRIMES[i], IV()[i] as nat)
  {
    match i
    case 0 => assert RootIs(2, 1, IV()[0] as nat);
    case 1 => assert RootIs(3, 1, IV()[1] as nat);
    case 2 => assert RootIs(5, 2, IV()[2] as nat);
    case 3 => assert RootIs(7, 2, IV()[3] as nat);
    case 4 => assert RootIs(11, 3, IV()[4] as nat);
    case 5 => assert RootIs(13, 3, IV()[5] as nat);
    case 6 => assert RootIs(17, 4, IV()[6] as nat);
    case _ => assert RootIs(19, 4, IV()[7] as nat);
  }

  /** The key block: a key padded with zeros, and none for a key of no bytes. */
  function KeyBlock(key: seq<bv8>): seq<bv8>
    requires |key| <= KEY_SIZE
  {
    if key == [] then [] else key + Zeros(BLOCK_SIZE - |key|)
  }

  /** The chain value before the first block. */
  function RfcInitial(kk: nat, nn: nat): Words
    requires kk <= KEY_SIZE && nn <= SIZE
  {
    IV()[0 := IV()[0] ^ 0x01010000 ^ ((kk as bv64) << 8) ^ (nn as bv64)]
  }

  /** The keyed hash of nn bytes. */
  function RfcHash(F: Compression, key: seq<bv8>, nn: nat, message: seq<bv8>): seq<bv8>
    requires |key| <= KEY_SIZE && 1 <= nn <= SIZE
  {
    Bytes(LastChain(F, RfcInitial(|key|, nn), KeyBlock(key) + message), nn)
  }

  // ---------------------------------------------------------------------------
  // The 128-bit counter

  lemma DivisionIs(a: int, q: int, r: int)
    requires a == q * WORD + r && 0 <= r < WORD
    ensures a / WORD == q && a % WORD == r
  {
  }

  /** The words of a counter, modulo 2^128. */
  ghost predicate Counts(t0: int, t1: int, a: int) {
    forall z: nat {:trigger Seal(z)} :: Seal(z) ==> t0 == a % WORD && t1 == a / WORD % WORD
  }

  /** Adding with the carry. */
  lemma Carry(t0: int, t1: int, a: int)
    requires Counts(t0, t1, a)
    ensures Counts((t0 + BLOCK_SIZE) % WORD, if (t0 + BLOCK_SIZE) % WORD < BLOCK_SIZE then (t1 + 1) % WORD else t1, a + BLOCK_SIZE)
  {
    assert Seal(0);
    var q := a / WORD;
    if t0 + BLOCK_SIZE < WORD {
      DivisionIs(a + BLOCK_SIZE, q, t0 + BLOCK_SIZE);
    } else {
      DivisionIs(a + BLOCK_SIZE, q + 1, t0 + BLOCK_SIZE - WORD);
      NextWord(q, 1);
    }
  }

  /** Subtracting with the borrow. */
  lemma Borrow(t0: int, t1: int, a: int, dec: nat)
    requires Counts(t0, t1, a) && dec <= BLOCK_SIZE
    ensures Counts((t0 - dec) % WORD, if t0 < dec then (t1 - 1) % WORD else t1, a - dec)
  {
    assert Seal(0);
    var q := a / WORD;
    if t0 >= dec {
      DivisionIs(a - dec, q, t0 - dec);
    } else {
      DivisionIs(a - dec, q - 1, t0 - dec + WORD);
      NextWord(q, -1);
    }
  }

  lemma NextWord(q: int, d: int)
    requires d == 1 || d == -1
    ensures (q % WORD + d) % WORD == (q + d) % WORD
  {
    DivisionIs(q, q / WORD, q % WORD);
    var r := q % WORD + d;
    if 0 <= r < WORD {
      DivisionIs(q + d, q / WORD, r);
    } else if r < 0 {
      DivisionIs(q + d, q / WORD - 1, r + WORD);
    } else {
      DivisionIs(q + d, q / WORD + 1, r - WORD);
    }
  }

  // ---------------------------------------------------------------------------
  // Chains

  /** The chain value after i blocks of p, from counter t and with flags f0, f1: the loop of `blocks`. */
  function Steps(F: Compression, h: Words, p: seq<bv8>, t: int, f0: bv64, f1: bv64, i: nat): Words
    requires BLOCK_SIZE * i <= |p|
  {
    if i == 0 then h
    else
      var a := t + BLOCK_SIZE * i;
      F(Steps(F, h, p, t, f0, f1, i - 1), p[BLOCK_SIZE * (i - 1)..BLOCK_SIZE * i], a % WORD, a / WORD % WORD, f0, f1)
  }

  lemma OneMoreStep(F: Compression, h: Words, p: seq<bv8>, t: int, f0: bv64, f1: bv64, i: nat, t0: int, t1: int)
    requires BLOCK_SIZE * (i + 1) <= |p| && Counts(t0, t1, t + BLOCK_SIZE * (i + 1))
    ensures Steps(F, h, p, t, f0, f1, i + 1) == F(Steps(F, h, p, t, f0, f1, i), p[BLOCK_SIZE * i..][..BLOCK_SIZE], t0, t1, f0, f1)
    ensures p[BLOCK_SIZE * i..][BLOCK_SIZE..] == p[BLOCK_SIZE * (i + 1)..]
  {
    assert Seal(0);
    assert p[BLOCK_SIZE * i..][..BLOCK_SIZE] == p[BLOCK_SIZE * i..BLOCK_SIZE * (i + 1)];
  }

  /** Going on from block i is one chain. */
  lemma {:induction false} StepsGoOn(F: Compression, h: Words, data: seq<bv8>, i: nat, p: seq<bv8>, n: nat)
    requires BLOCK_SIZE * (i + n) <= |data| && BLOCK_SIZE * n <= |p|
    requires data[BLOCK_SIZE * i..BLOCK_SIZE * (i + n)] == p[..BLOCK_SIZE * n]
    ensures Steps(F, Chain(F, h, data, i), p, BLOCK_SIZE * i, 0, 0, n) == Chain(F, h, data, i + n)
  {
    if n > 0 {
      CutLast(data, BLOCK_SIZE * i, BLOCK_SIZE * (i + n), p, BLOCK_SIZE * (n - 1));
      StepsGoOn(F, h, data, i, p, n - 1);
    }
  }

  lemma CutLast(data: seq<bv8>, a: nat, b: nat, p: seq<bv8>, m: nat)
    requires a + m <= b <= |data| && b - a <= |p| && data[a..b] == p[..b - a]
    ensures data[a..a + m] == p[..m] && data[a + m..b] == p[m..b - a]
  {
    assert data[a..a + m] == data[a..b][..m] && data[a + m..b] == data[a..b][m..];
    assert p[..m] == p[..b - a][..m] && p[m..b - a] == p[..b - a][m..];
  }

  /** A chain depends on its blocks only. */
  lemma {:induction false} ChainPrefix(F: Compression, h: Words, data: seq<bv8>, more: seq<bv8>, i: nat)
    requires BLOCK_SIZE * i <= |data| && data <= more
    ensures Chain(F, h, data, i) == Chain(F, h, more, i)
  {
    if i > 0 {
      ChainPrefix(F, h, data, more, i - 1);
      var a, b := BLOCK_SIZE * (i - 1), BLOCK_SIZE * i;
      assert forall k :: a <= k < b ==> data[k] == more[k];
      assert data[a..b] == more[a..b];
    }
  }

  // ---------------------------------------------------------------------------
  // The digest

  /** `Config` without the parameters for trees. */
  datatype Config = Config(size: nat, key: Option<seq<bv8>>, salt: seq<bv8>, person: seq<bv8>)

  datatype ConfigError = DigestTooLarge | KeyTooLarge | SaltTooLarge | PersonTooLarge

  /** `verifyConfig`. */
  function VerifyConfig(c: Config): Option<ConfigError> {
    if c.size > SIZE then Some(DigestTooLarge)
    else if c.key.Some? && |c.key.value| > KEY_SIZE then Some(KeyTooLarge)
    else if |c.salt| > SALT_SIZE then Some(SaltTooLarge)
    else if |c.person| > PERSON_SIZE then Some(PersonTooLarge)
    else None
  }

  predicate Verified(c: Config) {
    VerifyConfig(c) == None && c.size > 0
  }

  function KeyLength(c: Config): nat {
    if c.key.Some? then |c.key.value| else 0
  }

  /** The first 64 bytes of the parameter block. */
  function ParamBlock(c: Config): (p: seq<bv8>)
    requires Verified(c)
    ensures |p| == 64
  {
    [c.size as bv8, KeyLength(c) as bv8, 1, 1] + Zeros(28) +
    (c.salt + Zeros(SALT_SIZE - |c.salt|)) + (c.person + Zeros(PERSON_SIZE - |c.person|))
  }

  /** `binary.LittleEndian.Uint64`. */
  function Uint64(p: seq<bv8>, j: nat): bv64
    requires j + 8 <= |p|
  {
    (p[j] as bv64) | ((p[j + 1] as bv64) << 8) | ((p[j + 2] as bv64) << 16) | ((p[j + 3] as bv64) << 24) |
    ((p[j + 4] as bv64) << 32) | ((p[j + 5] as bv64) << 40) | ((p[j + 6] as bv64) << 48) | ((p[j + 7] as bv64) << 56)
  }

  /** The initial chain value for a configuration. */
  function Initial(c: Config): Words
    requires Verified(c)
  {
    seq(8, i requires 0 <= i < 8 => IV()[i] ^ Uint64(ParamBlock(c), 8 * i))
  }

  /** What is hashed before the message: a key that is given, even one of no bytes, padded. */
  function KeyPrefix(c: Config): seq<bv8>
    requires Verified(c)
  {
    if c.key.Some? then c.key.value + Zeros(BLOCK_SIZE - |c.key.value|) else []
  }

  /** The number of blocks compressed when n bytes have been written: the last block has to wait. */
  function Compressed(n: nat): nat {
    BlockCount(n) - 1
  }

  /** All full blocks but the last one. */
  function LastBlockStart(len: nat): (n: nat)
    requires len > BLOCK_SIZE
    ensures n == BLOCK_SIZE * (n / BLOCK_SIZE) && n < len <= n + BLOCK_SIZE
  {
    var n := len - len % BLOCK_SIZE;
    if n == len then n - BLOCK_SIZE else n
  }

  /** Block c of the data is next: what follows is in the buffer and then in p, and chain value and
      counter are those of the blocks before. */
  ghost predicate Track(F: Compression, ih: Words, data: seq<bv8>, c: nat, h: Words, t0: int, t1: int, buffered: seq<bv8>, p: seq<bv8>) {
    forall z: nat {:trigger Seal(z)} :: Seal(z) ==>
      BLOCK_SIZE * c <= |data| && data[BLOCK_SIZE * c..] == buffered + p && h == Chain(F, ih, data, c) && Counts(t0, t1, BLOCK_SIZE * c)
  }

  class Digest {
    const F: Compression
    const size: nat
    const x: array<bv8>
    var h: Words
    var t0: int
    var t1: int
    var f0: bv64
    var f1: bv64
    var nx: nat
    var ih: Words
    var paddedKey: seq<bv8>
    var isKeyed: bool
    /** The key block, and all bytes since the start with the key block first. */
    ghost var keyBlock: seq<bv8>
    ghost var input: seq<bv8>
    /** The chain value before the first block. */
    ghost var start: Words

    /** Block c of data is next, and p comes after what is in the buffer. */
    ghost predicate At(data: seq<bv8>, c: nat, p: seq<bv8>)
      reads this, x
    {
      && x.Length == BLOCK_SIZE && nx <= BLOCK_SIZE && f0 == 0 && f1 == 0
      && Track(F, start, data, c, h, t0, t1, x[..nx], p)
    }

    /** All input is accounted for, and the last block is still in the buffer. */
    ghost predicate Writable()
      reads this, x
    {
      At(input, Compressed(|input|), []) && 1 <= size <= SIZE
    }

    ghost predicate Valid()
      reads this, x
    {
      && Writable() && ih == start
      && |paddedKey| == BLOCK_SIZE && keyBlock == if isKeyed then paddedKey else []
    }

    /** The counter grows by one block. */
    method Tick(ghost t: int)
      requires Counts(t0, t1, t)
      modifies `t0, `t1
      ensures Counts(t0, t1, t + BLOCK_SIZE)
    {
      Carry(t0, t1, t);
      t0 := (t0 + BLOCK_SIZE) % WORD;
      if t0 < BLOCK_SIZE {
        t1 := (t1 + 1) % WORD;
      }
    }

    /** `blocks`. */
    method Blocks(p: seq<bv8>, ghost t: int, ghost m: nat)
      requires Counts(t0, t1, t) && BLOCK_SIZE * m <= |p| < BLOCK_SIZE * (m + 1)
      modifies `h, `t0, `t1
      ensures h == Steps(F, old(h), p, t, f0, f1, m)
      ensures Counts(t0, t1, t + BLOCK_SIZE * m)
    {
      var rest := p;
      ghost var i := 0;
      while |rest| >= BLOCK_SIZE
        invariant BLOCK_SIZE * i <= |p| && rest == p[BLOCK_SIZE * i..]
        invariant h == Steps(F, old(h), p, t, f0, f1, i)
        invariant Counts(t0, t1, t + BLOCK_SIZE * i)
      {
        Tick(t + BLOCK_SIZE * i);
        OneMoreStep(F, old(h), p, t, f0, f1, i, t0, t1);
        h := F(h, rest[..BLOCK_SIZE], t0, t1, f0, f1);
        rest := rest[BLOCK_SIZE..];
        i := i + 1;
      }
      assert i == m;
    }

    /** The first step of `Write`: a full buffer is compressed when more bytes follow. */
    method FlushBuffer(p: seq<bv8>, ghost data: seq<bv8>, ghost c: nat) returns (rest: seq<bv8>)
      requires At(data, c, p) && |p| > BLOCK_SIZE - nx
      modifies `h, `t0, `t1, `nx, x
      ensures At(data, c + 1, rest) && nx == 0 && rest != []
    {
      var left := BLOCK_SIZE - nx;
      TrackCounts(F, start, data, c, h, t0, t1, x[..nx], p);
      CopyIn(p[..left]);
      rest := p[left..];
      assert x[..BLOCK_SIZE] == x[..];
      Blocks(x[..], BLOCK_SIZE * c, 1);
      TrackBlocks(F, start, data, c, old(h), old(t0), old(t1), old(x[..nx]), p, left, 1, h, t0, t1);
      nx := 0;
      assert x[..nx] == [];
    }

    /** The second step: all full blocks but the last one. */
    method FullBlocks(p: seq<bv8>, ghost data: seq<bv8>, ghost c: nat) returns (rest: seq<bv8>, ghost c': nat)
      requires At(data, c, p) && nx == 0 && |p| > BLOCK_SIZE
      modifies `h, `t0, `t1
      ensures At(data, c', rest) && 0 < |rest| <= BLOCK_SIZE
    {
      var n := LastBlockStart(|p|);
      ghost var m := n / BLOCK_SIZE;
      rest, c' := p[n..], c + m;
      assert x[..nx] == [];
      TrackCounts(F, start, data, c, h, t0, t1, [], p);
      Blocks(p[..n], BLOCK_SIZE * c, m);
      TrackWhole(F, start, data, c, old(h), old(t0), old(t1), p, n, m, h, t0, t1);
    }

    /** The bytes go to the free part of the buffer. */
    method CopyIn(p: seq<bv8>)
      requires x.Length == BLOCK_SIZE && nx + |p| <= BLOCK_SIZE
      modifies x
      ensures x[..nx + |p|] == old(x[..nx]) + p
    {
      forall i | 0 <= i < |p| {
        x[nx + i] := p[i];
      }
    }

    /** What does not fit into the buffer is compressed. */
    method Drain(p: seq<bv8>, ghost data: seq<bv8>, ghost c: nat) returns (rest: seq<bv8>, ghost c': nat)
      requires At(data, c, p)
      modifies `h, `t0, `t1, `nx, x
      ensures At(data, c', rest) && nx + |rest| <= BLOCK_SIZE
      ensures (c' == c && nx == old(nx) && rest == p) || rest != []
    {
      rest, c' := p, c;
      if |rest| > BLOCK_SIZE - nx {
        rest := FlushBuffer(rest, data, c);
        c' := c + 1;
      }
      if |rest| > BLOCK_SIZE {
        rest, c' := FullBlocks(rest, data, c');
      }
    }

    method Write(p: seq<bv8>)
      requires Writable()
      modifies `h, `t0, `t1, `nx, `input, x
      ensures Writable() && input == old(input) + p
    {
      ghost var data := input + p;
      ghost var c := Compressed(|input|);
      TrackMore(F, start, input, c, h, t0, t1, x[..nx], p);
      var rest;
      rest, c := Drain(p, data, c);
      TrackMoved(F, start, data, c, h, t0, t1, x[..nx], rest);
      CopyIn(rest);
      nx := nx + |rest|;
      input := data;
      CompressedIs(|data|, c, nx);
    }

    /** `initialize`. */
    constructor (F: Compression, c: Config)
      requires Verified(c)
      ensures Valid() && fresh(x)
      ensures this.F == F && size == c.size && start == Initial(c)
      ensures input == KeyPrefix(c) && keyBlock == KeyPrefix(c)
    {
      this.F := F;
      size := c.size;
      x := new bv8[BLOCK_SIZE](_ => 0);
      h, ih := Initial(c), IV();
      t0, t1, f0, f1, nx := 0, 0, 0, 0, 0;
      paddedKey, isKeyed := Zeros(BLOCK_SIZE), false;
      keyBlock, input, start := [], [], Initial(c);
      new;
      assert x[..nx] == [];
      TrackStart(F, h);
      if c.key.Some? {
        paddedKey := KeyPrefix(c);
        keyBlock := KeyPrefix(c);
        Write(paddedKey);
        assert [] + paddedKey == paddedKey;
        isKeyed := true;
      }
      FirstBlockWaits(F, start, input, h, t0, t1, x[..nx]);
      ih := h;
    }

    /** `*d0`. */
    constructor Copy(d0: Digest)
      requires d0.Valid()
      ensures Valid() && fresh(x)
      ensures F == d0.F && size == d0.size && start == d0.start && input == d0.input
    {
      F := d0.F;
      size := d0.size;
      x := new bv8[BLOCK_SIZE](i requires 0 <= i < BLOCK_SIZE && d0.x.Length == BLOCK_SIZE reads d0.x => d0.x[i]);
      h, ih, t0, t1, f0, f1, nx := d0.h, d0.ih, d0.t0, d0.t1, d0.f0, d0.f1, d0.nx;
      paddedKey, isKeyed := d0.paddedKey, d0.isKeyed;
      keyBlock, input, start := d0.keyBlock, d0.input, d0.start;
      new;
      assert x[..nx] == d0.x[..nx];
    }

    /** A reset digest has seen the key block and nothing else. */
    method Reset()
      requires Valid()
      modifies this, x
      ensures Valid() && input == keyBlock == old(keyBlock) && start == old(start)
    {
      h := ih;
      t0, t1, f0, f1, nx := 0, 0, 0, 0, 0;
      input := [];
      assert x[..nx] == [];
      TrackStart(F, h);
      if isKeyed {
        Write(paddedKey);
        assert [] + paddedKey == paddedKey;
      }
    }

    /** Zeros fill the buffer. */
    method Pad()
      requires x.Length == BLOCK_SIZE && nx <= BLOCK_SIZE
      modifies x
      ensures x[..] == old(x[..nx]) + Zeros(BLOCK_SIZE - nx)
    {
      for i := nx to x.Length
        invariant x[..nx] == old(x[..nx]) && forall k :: nx <= k < i ==> x[k] == 0
      {
        x[i] := 0;
      }
      assert x[..] == x[..nx] + x[nx..];
      assert x[nx..] == Zeros(BLOCK_SIZE - nx);
    }

    /** The counter goes back by dec bytes. */
    method Uncount(dec: nat, ghost t: int)
      requires Counts(t0, t1, t) && dec <= BLOCK_SIZE
      modifies `t0, `t1
      ensures Counts(t0, t1, t - dec)
    {
      Borrow(t0, t1, t, dec);
      if t0 < dec {
        t1 := (t1 - 1) % WORD;
      }
      t0 := (t0 - dec) % WORD;
    }

    /** `checkSum`: the counter does not count the padding. The digest is of no use after it. */
    method CheckSum() returns (out: seq<bv8>)
      requires Valid()
      modifies this, x
      ensures |out| == SIZE && out[..size] == Bytes(LastChain(F, old(start), old(input)), size)
    {
      if isKeyed {
        paddedKey := Zeros(BLOCK_SIZE);
      }
      ghost var c := Compressed(|input|);
      TrackCounts(F, start, input, c, h, t0, t1, x[..nx], []);
      var dec := BLOCK_SIZE - nx;
      Uncount(dec, BLOCK_SIZE * c);
      Pad();
      f0 := ONES;
      Blocks(x[..], BLOCK_SIZE * c - dec, 1);
      LastBlock(F, start, input, old(h), old(t0), old(t1), old(x[..nx]), x[..], h);
      out := Output();
    }

    /** The words that hold the digest, as bytes; the other bytes are zero. */
    method Output() returns (out: seq<bv8>)
      requires 1 <= size <= SIZE
      ensures |out| == SIZE && out[..size] == Bytes(h, size)
    {
      out := [];
      var n := (size - 1) / 8 + 1;
      for i := 0 to n
        invariant out == AllBytes(h, i)
      {
        out := out + Split(h[i]);
      }
      AllBytesPrefix(h, n, 8);
      out := out + Zeros(SIZE - |out|);
    }

    /** `Sum`: the digest of all input so far; the state stays as it is. */
    method Sum(before: seq<bv8>) returns (out: seq<bv8>)
      requires Valid()
      ensures out == before + Bytes(LastChain(F, start, input), size)
    {
      var d := new Digest.Copy(this);
      var hash := d.CheckSum();
      out := before + hash[..size];
    }
  }

  lemma TrackStart(F: Compression, h: Words)
    ensures Track(F, h, [], 0, h, 0, 0, [], [])
  {
  }

  /** As long as there is at most one block, nothing is compressed. */
  lemma FirstBlockWaits(F: Compression, start: Words, data: seq<bv8>, h: Words, t0: int, t1: int, buffered: seq<bv8>)
    requires Track(F, start, data, Compressed(|data|), h, t0, t1, buffered, []) && |data| <= BLOCK_SIZE
    ensures h == start
  {
    assert Seal(0);
  }

  /** The last block is padded, and counted without the padding. */
  lemma LastBlock(F: Compression, start: Words, data: seq<bv8>, h: Words, t0: int, t1: int, buffered: seq<bv8>, block: seq<bv8>, h': Words)
    requires Track(F, start, data, Compressed(|data|), h, t0, t1, buffered, []) && |buffered| <= BLOCK_SIZE
    requires block == buffered + Zeros(BLOCK_SIZE - |buffered|)
    requires h' == Steps(F, h, block, BLOCK_SIZE * Compressed(|data|) - (BLOCK_SIZE - |buffered|), ONES, 0, 1)
    ensures h' == LastChain(F, start, data)
  {
    assert Seal(0);
    var c := Compressed(|data|);
    ChainPrefix(F, start, data, Padded(data), c);
    assert Padded(data)[BLOCK_SIZE * c..] == block;
    assert block[BLOCK_SIZE * 0..BLOCK_SIZE * 1] == block;
    assert BLOCK_SIZE * c - (BLOCK_SIZE - |buffered|) + BLOCK_SIZE * 1 == |data|;
    assert Steps(F, h, block, BLOCK_SIZE * c - (BLOCK_SIZE - |buffered|), ONES, 0, 0) == h;
  }

  lemma TrackCounts(F: Compression, ih: Words, data: seq<bv8>, c: nat, h: Words, t0: int, t1: int, buffered: seq<bv8>, p: seq<bv8>)
    requires Track(F, ih, data, c, h, t0, t1, buffered, p)
    ensures Counts(t0, t1, BLOCK_SIZE * c) && |data| == BLOCK_SIZE * c + |buffered| + |p|
  {
    assert Seal(0);
  }

  /** More bytes come. */
  lemma TrackMore(F: Compression, ih: Words, data: seq<bv8>, c: nat, h: Words, t0: int, t1: int, buffered: seq<bv8>, p: seq<bv8>)
    requires Track(F, ih, data, c, h, t0, t1, buffered, [])
    ensures Track(F, ih, data + p, c, h, t0, t1, buffered, p) && |data| == BLOCK_SIZE * c + |buffered|
  {
    assert Seal(0);
    ChainPrefix(F, ih, data, data + p, c);
    assert (data + p)[BLOCK_SIZE * c..] == data[BLOCK_SIZE * c..] + p;
  }

  /** The bytes that come are put into the buffer. */
  lemma TrackMoved(F: Compression, ih: Words, data: seq<bv8>, c: nat, h: Words, t0: int, t1: int, buffered: seq<bv8>, p: seq<bv8>)
    requires Track(F, ih, data, c, h, t0, t1, buffered, p)
    ensures Track(F, ih, data, c, h, t0, t1, buffered + p, []) && |data| == BLOCK_SIZE * c + |buffered| + |p|
  {
    assert Seal(0);
    assert buffered + p + [] == buffered + p;
  }

  /** The buffer and n more bytes are compressed: m blocks. */
  lemma TrackBlocks(F: Compression, ih: Words, data: seq<bv8>, c: nat, h: Words, t0: int, t1: int, buffered: seq<bv8>, p: seq<bv8>,
                    n: nat, m: nat, h': Words, t0': int, t1': int)
    requires Track(F, ih, data, c, h, t0, t1, buffered, p) && n <= |p| && |buffered| + n == BLOCK_SIZE * m
    requires h' == Steps(F, h, buffered + p[..n], BLOCK_SIZE * c, 0, 0, m)
    requires Counts(t0', t1', BLOCK_SIZE * c + BLOCK_SIZE * m)
    ensures Track(F, ih, data, c + m, h', t0', t1', [], p[n..])
  {
    assert Seal(0);
    var a, d := BLOCK_SIZE * c, buffered + p[..n];
    assert buffered + p == d + p[n..];
    assert data[a..][..|d|] == d && data[a..][|d|..] == p[n..];
    assert data[a..a + |d|] == data[a..][..|d|];
    assert d[..BLOCK_SIZE * m] == d && [] + p[n..] == p[n..];
    assert BLOCK_SIZE * c + BLOCK_SIZE * m == BLOCK_SIZE * (c + m);
    StepsGoOn(F, ih, data, c, d, m);
  }

  lemma TrackWhole(F: Compression, ih: Words, data: seq<bv8>, c: nat, h: Words, t0: int, t1: int, p: seq<bv8>,
                   n: nat, m: nat, h': Words, t0': int, t1': int)
    requires Track(F, ih, data, c, h, t0, t1, [], p) && n <= |p| && n == BLOCK_SIZE * m
    requires h' == Steps(F, h, p[..n], BLOCK_SIZE * c, 0, 0, m)
    requires Counts(t0', t1', BLOCK_SIZE * c + BLOCK_SIZE * m)
    ensures Track(F, ih, data, c + m, h', t0', t1', [], p[n..])
  {
    assert [] + p[..n] == p[..n];
    TrackBlocks(F, ih, data, c, h, t0, t1, [], p, n, m, h', t0', t1');
  }

  lemma CompressedIs(n: nat, c: nat, nx: nat)
    requires n == BLOCK_SIZE * c + nx && nx <= BLOCK_SIZE && (nx == 0 ==> c == 0)
    ensures c == Compressed(n)
  {
  }

  // ---------------------------------------------------------------------------
  // Whole hashes

  /** Words are read and written with the same order of bytes. */
  lemma LittleEndian(w: bv64)
    ensures Uint64(Split(w), 0) == w
  {
    var b := Split(w);
    assert (b[0] as bv64) == w & 0xff && (b[1] as bv64) == (w >> 8) & 0xff;
    assert (b[2] as bv64) == (w >> 16) & 0xff && (b[3] as bv64) == (w >> 24) & 0xff;
    assert (b[4] as bv64) == (w >> 32) & 0xff && (b[5] as bv64) == (w >> 40) & 0xff;
    assert (b[6] as bv64) == (w >> 48) & 0xff && (b[7] as bv64) == (w >> 56) & 0xff;
  }

  /** Without salt and personalization the parameters are those of RFC 7693. */
  predicate Plain(c: Config) {
    Verified(c) && c.salt == [] && c.person == []
  }

  lemma InitialIsRfc(c: Config)
    requires Plain(c)
    ensures Initial(c) == RfcInitial(KeyLength(c), c.size)
  {
    FirstInitial(c);
    forall i | 1 <= i < 8
      ensures Initial(c)[i] == IV()[i]
    {
      OtherInitial(c, i);
    }
    SameWords(Initial(c), RfcInitial(KeyLength(c), c.size), IV());
  }

  lemma SameWords(a: Words, b: Words, iv: Words)
    requires a[0] == b[0] && b == iv[0 := b[0]] && forall i :: 1 <= i < 8 ==> a[i] == iv[i]
    ensures a == b
  {
  }

  lemma FirstInitial(c: Config)
    requires Plain(c)
    ensures Initial(c)[0] == RfcInitial(KeyLength(c), c.size)[0]
  {
    ParamBytes(c);
    FirstWord(KeyLength(c), c.size);
    SameWord(ParamBlock(c), 0, [c.size as bv8, KeyLength(c) as bv8, 1, 1, 0, 0, 0, 0]);
    FirstXor(IV()[0], KeyLength(c), c.size);
  }

  lemma OtherInitial(c: Config, i: nat)
    requires Plain(c) && 1 <= i < 8
    ensures Initial(c)[i] == IV()[i]
  {
    ParamBytes(c);
    SameWord(ParamBlock(c), 8 * i, [0, 0, 0, 0, 0, 0, 0, 0]);
    ZeroWord(IV()[i]);
  }

  lemma ParamBytes(c: Config)
    requires Plain(c)
    ensures ParamBlock(c)[0] == c.size as bv8 && ParamBlock(c)[1] == KeyLength(c) as bv8
    ensures ParamBlock(c)[2] == 1 && ParamBlock(c)[3] == 1
    ensures forall j :: 4 <= j < 64 ==> ParamBlock(c)[j] == 0
  {
  }

  lemma SameWord(p: seq<bv8>, j: nat, q: seq<bv8>)
    requires j + 8 <= |p| && |q| == 8 && forall k :: 0 <= k < 8 ==> p[j + k] == q[k]
    ensures Uint64(p, j) == Uint64(q, 0)
  {
  }

  lemma ZeroWord(w: bv64)
    ensures w ^ Uint64([0, 0, 0, 0, 0, 0, 0, 0], 0) == w
  {
    assert Uint64([0, 0, 0, 0, 0, 0, 0, 0], 0) == 0;
  }

  lemma FirstXor(w: bv64, kk: nat, nn: nat)
    requires kk <= KEY_SIZE && nn <= SIZE
    ensures w ^ (0x01010000 ^ ((kk as bv64) << 8) ^ (nn as bv64)) == w ^ 0x01010000 ^ ((kk as bv64) << 8) ^ (nn as bv64)
  {
  }

  lemma FirstWord(kk: nat, nn: nat)
    requires kk <= KEY_SIZE && nn <= SIZE
    ensures Uint64([nn as bv8, kk as bv8, 1, 1, 0, 0, 0, 0], 0) == 0x01010000 ^ ((kk as bv64) << 8) ^ (nn as bv64)
  {
  }

  /** The key block is that of RFC 7693 unless a key of no bytes is given. */
  lemma KeyPrefixIsRfc(c: Config)
    requires Verified(c)
    ensures KeyPrefix(c) == KeyBlock(if c.key.Some? then c.key.value else []) <==> c.key != Some([])
  {
    if c.key == Some([]) {
      assert |KeyPrefix(c)| == BLOCK_SIZE;
    }
  }

  function Concat(chunks: seq<seq<bv8>>): (s: seq<bv8>) {
    if chunks == [] then [] else Concat(chunks[..|chunks| - 1]) + chunks[|chunks| - 1]
  }

  lemma ConcatStep(chunks: seq<seq<bv8>>, i: nat)
    requires i < |chunks|
    ensures Concat(chunks[..i + 1]) == Concat(chunks[..i]) + chunks[i]
  {
    assert chunks[..i + 1][..i] == chunks[..i];
  }

  /** A new digest, some writes, and the sum: however the message is cut, the result is the hash of
      all of it, which is that of RFC 7693 unless a key of no bytes is given. */
  method HashOf(F: Compression, c: Config, chunks: seq<seq<bv8>>) returns (out: seq<bv8>)
    requires Verified(c)
    ensures out == Bytes(LastChain(F, Initial(c), KeyPrefix(c) + Concat(chunks)), c.size)
    ensures Plain(c) && c.key != Some([]) ==>
      out == RfcHash(F, if c.key.Some? then c.key.value else [], c.size, Concat(chunks))
  {
    var d := new Digest(F, c);
    WriteAll(d, chunks);
    out := d.Sum([]);
    assert out == Bytes(LastChain(F, Initial(c), KeyPrefix(c) + Concat(chunks)), c.size);
    if Plain(c) && c.key != Some([]) {
      KeyPrefixIsRfc(c);
      InitialIsRfc(c);
    }
  }

  method WriteAll(d: Digest, chunks: seq<seq<bv8>>)
    requires d.Valid()
    modifies d, d.x
    ensures d.Valid() && d.start == old(d.start) && d.input == old(d.input) + Concat(chunks)
  {
    assert d.input + [] == d.input;
    for i := 0 to |chunks|
      invariant d.Valid() && d.start == old(d.start)
      invariant d.input == old(d.input) + Concat(chunks[..i])
    {
      d.Write(chunks[i]);
      ConcatStep(chunks, i);
      Regroup(old(d.input), Concat(chunks[..i]), chunks[i]);
    }
    assert chunks[..|chunks|] == chunks;
  }

  lemma Regroup(a: seq<bv8>, b: seq<bv8>, c: seq<bv8>)
    ensures a + b + c == a + (b + c)
  {
  }

  /** `Sum512`. */
  method Sum512(F: Compression, data: seq<bv8>) returns (out: seq<bv8>)
    ensures out == RfcHash(F, [], 64, data)
  {
    var c := Config(64, None, [], []);
    var d := new Digest(F, c);
    d.Write(data);
    out := d.CheckSum();
    assert out[..64] == out && [] + data == data;
    InitialIsRfc(c);
  }

  /** `Sum256`. */
  method Sum256(F: Compression, data: seq<bv8>) returns (out: seq<bv8>)
    ensures out == RfcHash(F, [], 32, data)
  {
    var c := Config(32, None, [], []);
    var d := new Digest(F, c);
    d.Write(data);
    var sum := d.CheckSum();
    out := sum[..32];
    assert [] + data == data;
    InitialIsRfc(c);
  }

  /** `New`: without a configuration, or a size, the digest has 64 bytes. */
  method New(F: Compression, config: Option<Config>) returns (d: Digest?, error: Option<ConfigError>)
    ensures error == if config == None then None else VerifyConfig(config.value)
    ensures d != null <==> error == None
    ensures d != null ==> d.Valid() && d.F == F && fresh(d) && fresh(d.x) && d.size == if config == None || config.value.size == 0 then SIZE else config.value.size
  {
    var c := Config(SIZE, None, [], []);
    if config.Some? {
      c := config.value;
      if c.size == 0 {
        c := c.(size := SIZE);
      }
      error := VerifyConfig(c);
      if error != None {
        return null, error;
      }
    }
    d := new Digest(F, c);
    error := None;
  }
}

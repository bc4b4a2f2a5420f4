/** MD5 as scripts/mkhash.c computes it (lines 136-396), against section 3 of RFC 1321. */
module Md5 {
  import opened HashBlocks
  import opened Numbers

  datatype State = State(a: Word, b: Word, c: Word, d: Word)

  const INITIAL_STATE := State(0x67452301, 0xefcdab89, 0x98badcfe, 0x10325476)

  // ----- RFC 1321 -----

  function F(x: Word, y: Word, z: Word): Word { (x & y) | (!x & z) }

  function G(x: Word, y: Word, z: Word): Word { (x & z) | (y & !z) }

  function H(x: Word, y: Word, z: Word): Word { x ^ y ^ z }

  function I(x: Word, y: Word, z: Word): Word { y ^ (x | !z) }

  /** The auxiliary function of step `t`. */
  function Aux(t: nat, x: Word, y: Word, z: Word): Word {
    if t < 16 then F(x, y, z) else if t < 32 then G(x, y, z) else if t < 48 then H(x, y, z) else I(x, y, z)
  }

  /** The additive constants, the word each step takes and its rotation, section 3.4. */
  const SINES: seq<Word> := [
    0xd76aa478, 0xe8c7b756, 0x242070db, 0xc1bdceee, 0xf57c0faf, 0x4787c62a, 0xa8304613, 0xfd469501,
    0x698098d8, 0x8b44f7af, 0xffff5bb1, 0x895cd7be, 0x6b901122, 0xfd987193, 0xa679438e, 0x49b40821,
    0xf61e2562, 0xc040b340, 0x265e5a51, 0xe9b6c7aa, 0xd62f105d, 0x02441453, 0xd8a1e681, 0xe7d3fbc8,
    0x21e1cde6, 0xc33707d6, 0xf4d50d87, 0x455a14ed, 0xa9e3e905, 0xfcefa3f8, 0x676f02d9, 0x8d2a4c8a,
    0xfffa3942, 0x8771f681, 0x6d9d6122, 0xfde5380c, 0xa4beea44, 0x4bdecfa9, 0xf6bb4b60, 0xbebfbc70,
    0x289b7ec6, 0xeaa127fa, 0xd4ef3085, 0x04881d05, 0xd9d4d039, 0xe6db99e5, 0x1fa27cf8, 0xc4ac5665,
    0xf4292244, 0x432aff97, 0xab9423a7, 0xfc93a039, 0x655b59c3, 0x8f0ccc92, 0xffeff47d, 0x85845dd1,
    0x6fa87e4f, 0xfe2ce6e0, 0xa3014314, 0x4e0811a1, 0xf7537e82, 0xbd3af235, 0x2ad7d2bb, 0xeb86d391
  ]

  type Index = i: int | 0 <= i < 16

  type Shift = i: int | 0 < i < 32 witness 7

  const TAKEN: seq<Index> := [
    0, 1, 2, 3, 4, 5, 6, 7, 8, 9, 10, 11, 12, 13, 14, 15,
    1, 6, 11, 0, 5, 10, 15, 4, 9, 14, 3, 8, 13, 2, 7, 12,
    5, 8, 11, 14, 1, 4, 7, 10, 13, 0, 3, 6, 9, 12, 15, 2,
    0, 7, 14, 5, 12, 3, 10, 1, 8, 15, 6, 13, 4, 11, 2, 9
  ]

  const SHIFTS: seq<Shift> := [
    7, 12, 17, 22, 7, 12, 17, 22, 7, 12, 17, 22, 7, 12, 17, 22,
    5, 9, 14, 20, 5, 9, 14, 20, 5, 9, 14, 20, 5, 9, 14, 20,
    4, 11, 16, 23, 4, 11, 16, 23, 4, 11, 16, 23, 4, 11, 16, 23,
    6, 10, 15, 21, 6, 10, 15, 21, 6, 10, 15, 21, 6, 10, 15, 21
  ]

  function Rotl(x: Word, n: nat): Word
    requires n < 32
  {
    (x << n) | (x >> (32 - n))
  }

  type Message = m: seq<Word> | |m| == 16 witness seq(16, _ => 0)

  function Sum4(a: Word, f: Word, x: Word, k: Word): Word { a + f + x + k }

  function Add(x: Word, y: Word): Word { x + y }

  /** Step `t`: one register is replaced and the four change places. */
  function Step(t: nat, s: State, m: Message): State
    requires t < 64
  {
    var sum := Sum4(s.a, Aux(t, s.b, s.c, s.d), m[TAKEN[t]], SINES[t]);
    State(s.d, Add(s.b, Rotl(sum, SHIFTS[t])), s.b, s.c)
  }

  function Steps(s: State, m: Message, t: nat): State
    requires t <= 64
  {
    if t == 0 then s else Step(t - 1, Steps(s, m, t - 1), m)
  }

  function LittleEndian(b: Bytes): Word
    requires |b| == 4
  {
    b[0] as Word | (b[1] as Word << 8) | (b[2] as Word << 16) | (b[3] as Word << 24)
  }

  function Words(b: Block): (m: Message)
    ensures forall i :: 0 <= i < 16 ==> m[i] == LittleEndian(b[4 * i..4 * i + 4])
  {
    seq(16, i requires 0 <= i < 16 => LittleEndian(b[4 * i..4 * i + 4]))
  }

  /** Section 3.4 on one block. */
  function Compress(s: State, b: Block): State {
    var r := Steps(s, Words(b), 64);
    State(Add(r.a, s.a), Add(r.b, s.b), Add(r.c, s.c), Add(r.d, s.d))
  }

  /** A number below 2^64 as eight bytes, the lowest first. */
  function Length64(n: nat): Bytes {
    [Octet(n, 1), Octet(n, 0x100), Octet(n, 0x1_0000), Octet(n, 0x100_0000), Octet(n, 0x1_0000_0000),
     Octet(n, 0x100_0000_0000), Octet(n, 0x1_0000_0000_0000), Octet(n, 0x1_00_0000_0000_0000)]
  }

  function EncodeWord(u: Word): Bytes {
    [(u & 0xff) as bv8, ((u >> 8) & 0xff) as bv8, ((u >> 16) & 0xff) as bv8, ((u >> 24) & 0xff) as bv8]
  }

  lemma DecodeEncode(u: Word)
    ensures LittleEndian(EncodeWord(u)) == u
  {
  }

  function Encode(s: State): Bytes { EncodeWord(s.a) + EncodeWord(s.b) + EncodeWord(s.c) + EncodeWord(s.d) }

  /** The final state, as the message's padding defines it; the length counts modulo 2^64. */
  function Padding(msg: Bytes): State {
    var length := Length64(8 * |msg| % TWO_TO_64);
    PaddedWhole(msg, length);
    Fold(Compress, INITIAL_STATE, Padded(msg, length))
  }

  function Hash(msg: Bytes): Bytes { Encode(Padding(msg)) }

  // ----- the program's forms -----

  function ProgramF(x: Word, y: Word, z: Word): Word { z ^ (x & (y ^ z)) }

  function ProgramG(x: Word, y: Word, z: Word): Word { y ^ (z & (x ^ y)) }

  function ProgramH2(x: Word, y: Word, z: Word): Word { x ^ (y ^ z) }

  lemma FBits(x: Word, y: Word, z: Word)
    ensures z ^ (x & (y ^ z)) == (x & y) | (!x & z)
  {
  }

  lemma GBits(x: Word, y: Word, z: Word)
    ensures y ^ (z & (x ^ y)) == (x & z) | (y & !z)
  {
  }

  lemma H2Bits(x: Word, y: Word, z: Word)
    ensures x ^ (y ^ z) == x ^ y ^ z
  {
  }

  /** The macro each line of the unrolled body names. */
  function ProgramAux(t: nat, x: Word, y: Word, z: Word): Word {
    if t < 16 then ProgramF(x, y, z)
    else if t < 32 then ProgramG(x, y, z)
    else if t < 48 then if t % 2 == 0 then H(x, y, z) else ProgramH2(x, y, z)
    else I(x, y, z)
  }

  lemma FForm(x: Word, y: Word, z: Word)
    ensures ProgramF(x, y, z) == F(x, y, z)
  {
    FBits(x, y, z);
  }

  lemma GForm(x: Word, y: Word, z: Word)
    ensures ProgramG(x, y, z) == G(x, y, z)
  {
    GBits(x, y, z);
  }

  lemma H2Form(x: Word, y: Word, z: Word)
    ensures ProgramH2(x, y, z) == H(x, y, z)
  {
    H2Bits(x, y, z);
  }

  lemma AuxForm(t: nat, x: Word, y: Word, z: Word)
    ensures ProgramAux(t, x, y, z) == Aux(t, x, y, z)
  {
    hide F, G, H, I, ProgramF, ProgramG, ProgramH2;
    FForm(x, y, z);
    GForm(x, y, z);
    H2Form(x, y, z);
  }

  /** STEP: the replaced register's new value. */
  function ProgramStep(t: nat, a: Word, b: Word, c: Word, d: Word, m: Message): Word
    requires t < 64
  {
    Add(ProgramRotl(ProgramSum(a, ProgramAux(t, b, c, d), m[TAKEN[t]], SINES[t]), SHIFTS[t]), b)
  }

  function ProgramSum(a: Word, f: Word, x: Word, k: Word): Word { a + (f + x + k) }

  function ProgramRotl(a: Word, n: nat): Word
    requires n < 32
  {
    (a << n) | ((a & 0xffffffff) >> (32 - n))
  }

  lemma SumBits(a: Word, f: Word, x: Word, k: Word)
    ensures a + (f + x + k) == a + f + x + k
  {
  }

  lemma SumForm(a: Word, f: Word, x: Word, k: Word)
    ensures ProgramSum(a, f, x, k) == Sum4(a, f, x, k)
  {
    SumBits(a, f, x, k);
  }

  lemma MaskBits(a: Word)
    ensures a & 0xffffffff == a
  {
  }

  lemma RotlForm(a: Word, n: nat)
    requires n < 32
    ensures ProgramRotl(a, n) == Rotl(a, n)
  {
    MaskBits(a);
  }

  lemma AddSwaps(x: Word, y: Word)
    ensures Add(x, y) == Add(y, x)
  {
  }

  lemma StepForm(t: nat, s: State, m: Message)
    requires t < 64
    ensures Step(t, s, m) == State(s.d, ProgramStep(t, s.a, s.b, s.c, s.d, m), s.b, s.c)
  {
    hide Aux, ProgramAux, Rotl, ProgramRotl, Sum4, ProgramSum, Add;
    AuxForm(t, s.b, s.c, s.d);
    var f, x := Aux(t, s.b, s.c, s.d), m[TAKEN[t]];
    SumForm(s.a, f, x, SINES[t]);
    RotlForm(Sum4(s.a, f, x, SINES[t]), SHIFTS[t]);
    AddSwaps(Rotl(Sum4(s.a, f, x, SINES[t]), SHIFTS[t]), s.b);
  }

  /** Four lines of the unrolled body replace a, d, c and b in turn, and leave every register
      under its own name. */
  lemma FourSteps(t: nat, s: State, m: Message, a: Word, d: Word, c: Word, b: Word)
    requires t + 4 <= 64
    requires a == ProgramStep(t, s.a, s.b, s.c, s.d, m)
    requires d == ProgramStep(t + 1, s.d, a, s.b, s.c, m)
    requires c == ProgramStep(t + 2, s.c, d, a, s.b, m)
    requires b == ProgramStep(t + 3, s.b, c, d, a, m)
    ensures Step(t + 3, Step(t + 2, Step(t + 1, Step(t, s, m), m), m), m) == State(a, b, c, d)
  {
    hide ProgramStep, Step;
    StepForm(t, s, m);
    StepForm(t + 1, State(s.d, a, s.b, s.c), m);
    StepForm(t + 2, State(s.c, d, a, s.b), m);
    StepForm(t + 3, State(s.b, c, d, a), m);
  }

  lemma StepsFour(s: State, m: Message, t: nat)
    requires t + 4 <= 64
    ensures Steps(s, m, t + 4)
            == Step(t + 3, Step(t + 2, Step(t + 1, Step(t, Steps(s, m, t), m), m), m), m)
  {
    hide Step;
    assert Steps(s, m, t + 2) == Step(t + 1, Step(t, Steps(s, m, t), m), m);
    assert Steps(s, m, t + 4) == Step(t + 3, Step(t + 2, Steps(s, m, t + 2), m), m);
  }

  // ----- the streaming context -----

  function After(msg: Bytes): State { Folded(Compress, INITIAL_STATE, msg) }


  /** The two counters hold the byte count: 29 bits in `lo`, the rest in `hi`. */
  predicate Counts(lo: nat, hi: nat, n: nat) {
    lo < TWO_TO_29 && hi < TWO_TO_32 && hi * TWO_TO_29 + lo == n % TWO_TO_61
  }

  lemma CountsPending(lo: nat, hi: nat, n: nat)
    requires Counts(lo, hi, n)
    ensures lo % 64 == n % 64
  {
    var q := n / TWO_TO_61;
    assert n == TWO_TO_61 * q + hi * TWO_TO_29 + lo;
    assert n == 64 * (TWO_TO_61 / 64 * q + hi * (TWO_TO_29 / 64)) + lo;
    Mod64(TWO_TO_61 / 64 * q + hi * (TWO_TO_29 / 64), lo);
  }

  /** The carry out of `lo` is noticed by comparing it with what it was. */
  lemma CountsAdd(lo: nat, hi: nat, n: nat, size: nat)
    requires Counts(lo, hi, n)
    ensures var lo2 := (lo + size) % TWO_TO_29;
            var carry := if lo2 < lo then 1 else 0;
            Counts(lo2, ((hi + carry) % TWO_TO_32 + size / TWO_TO_29) % TWO_TO_32, n + size)
  {
    var lo2 := (lo + size) % TWO_TO_29;
    var carry := if lo2 < lo then 1 else 0;
    var h := size / TWO_TO_29;
    LowCarries(lo, size);
    var up := hi + carry + h;
    assert n % TWO_TO_61 + size == TWO_TO_29 * up + lo2;
    WrapHigh(up, lo2);
    ModAdd(n, size);
    Wrap32(hi + carry, h);
  }

  lemma LowCarries(lo: nat, size: nat)
    requires lo < TWO_TO_29
    ensures var lo2 := (lo + size) % TWO_TO_29;
            lo + size == TWO_TO_29 * (size / TWO_TO_29 + if lo2 < lo then 1 else 0) + lo2
  {
    var h, l := size / TWO_TO_29, size % TWO_TO_29;
    ModDrop29(h, lo + l);
  }

  lemma ModDrop29(q: nat, x: nat)
    ensures (TWO_TO_29 * q + x) % TWO_TO_29 == x % TWO_TO_29
  {
  }

  lemma WrapHigh(up: nat, lo: nat)
    requires lo < TWO_TO_29
    ensures (TWO_TO_29 * up + lo) % TWO_TO_61 == up % TWO_TO_32 * TWO_TO_29 + lo
  {
    assert up == TWO_TO_32 * (up / TWO_TO_32) + up % TWO_TO_32;
    assert TWO_TO_29 * up + lo == TWO_TO_61 * (up / TWO_TO_32) + (up % TWO_TO_32 * TWO_TO_29 + lo);
    ModIs(up / TWO_TO_32, up % TWO_TO_32 * TWO_TO_29 + lo);
  }

  lemma ModIs(q: nat, x: nat)
    requires x < TWO_TO_61
    ensures (TWO_TO_61 * q + x) % TWO_TO_61 == x
  {
  }

  lemma ModAdd(n: nat, size: nat)
    ensures (n % TWO_TO_61 + size) % TWO_TO_61 == (n + size) % TWO_TO_61
  {
    var q, x := n / TWO_TO_61, n % TWO_TO_61 + size;
    assert n + size == TWO_TO_61 * q + x;
    assert x == TWO_TO_61 * (x / TWO_TO_61) + x % TWO_TO_61;
    assert n + size == TWO_TO_61 * (q + x / TWO_TO_61) + x % TWO_TO_61;
    ModIs(q + x / TWO_TO_61, x % TWO_TO_61);
  }

  lemma Wrap32(x: nat, y: nat)
    ensures (x % TWO_TO_32 + y) % TWO_TO_32 == (x + y) % TWO_TO_32
  {
  }

  /** The eight length bytes that MD5_end stores. */
  function ProgramLength64(lo: nat, hi: nat): Bytes {
    var l := lo * 8 % TWO_TO_32;
    [Octet(l, 1), Octet(l, 0x100), Octet(l, 0x1_0000), Octet(l, 0x100_0000),
     Octet(hi, 1), Octet(hi, 0x100), Octet(hi, 0x1_0000), Octet(hi, 0x100_0000)]
  }

  lemma LengthForm(lo: nat, hi: nat, n: nat)
    requires Counts(lo, hi, n)
    ensures ProgramLength64(lo, hi) == Length64(8 * n % TWO_TO_64)
  {
    hide Length64, ProgramLength64;
    var v := hi * TWO_TO_32 + 8 * lo;
    assert 8 * n == TWO_TO_64 * (n / TWO_TO_61) + v;
    ModIs64(n / TWO_TO_61, v);
    Digits(lo, hi, v);
  }

  lemma Digits(lo: nat, hi: nat, v: nat)
    requires lo < TWO_TO_29 && v == hi * TWO_TO_32 + 8 * lo
    ensures ProgramLength64(lo, hi) == Length64(v)
  {
    hide Octet;
    assert v / TWO_TO_32 == hi && v % TWO_TO_32 == 8 * lo == lo * 8 % TWO_TO_32;
    HighHalf(v, 0x100_0000, 0x1_00_0000_0000_0000);
    HighHalf(v, 0x1_0000, 0x1_0000_0000_0000);
    HighHalf(v, 0x100, 0x100_0000_0000);
    HighHalf(v, 1, 0x1_0000_0000);
    LowHalf(v, 0x100_0000, 1);
    LowHalf(v, 0x1_0000, 0x100);
    LowHalf(v, 0x100, 0x1_0000);
    LowHalf(v, 1, 0x100_0000);
  }

  lemma ModIs64(q: nat, x: nat)
    requires x < TWO_TO_64
    ensures (TWO_TO_64 * q + x) % TWO_TO_64 == x
  {
  }

  class Context {
    var lo: nat
    var hi: nat
    var a: Word
    var b: Word
    var c: Word
    var d: Word
    const buffer: array<bv8>
    ghost var hashed: Bytes

    ghost function Registers(): State
      reads this
    {
      State(a, b, c, d)
    }

    /** What the context keeps of the bytes hashed so far, however they arrived. */
    ghost predicate Valid()
      reads this, buffer
    {
      && buffer.Length == 64 && Counts(lo, hi, |hashed|)
      && Registers() == After(hashed)
      && buffer[..|hashed| % 64] == Tail(hashed)
    }

    /** MD5_begin */
    constructor ()
      ensures Valid() && hashed == [] && fresh(buffer)
    {
      a, b, c, d := 0x67452301, 0xefcdab89, 0x98badcfe, 0x10325476;
      lo, hi := 0, 0;
      buffer := new bv8[64];
      hashed := [];
      new;
      hide Compress, Folded, Tail;
      NothingFolded(Compress, INITIAL_STATE);
    }

    /** memcpy or memset into the buffer */
    method Copy(at: nat, src: Bytes)
      requires buffer.Length == 64 && at + |src| <= 64
      modifies buffer
      ensures buffer[..] == old(buffer[..at]) + src + old(buffer[at + |src|..])
    {
      for i := 0 to |src|
        invariant forall j :: 0 <= j < at || at + |src| <= j < 64 ==> buffer[j] == old(buffer[j])
        invariant forall j :: 0 <= j < i ==> buffer[at + j] == src[j]
      {
        buffer[at + i] := src[i];
      }
    }

    /** MD5_body: one or more blocks. */
    method Body(data: Bytes)
      requires |data| > 0 && |data| % 64 == 0
      modifies `a, `b, `c, `d
      ensures Registers() == Fold(Compress, old(Registers()), data)
    {
      hide Compress;
      ghost var from := Registers();
      var i := 0;
      assert data[..0] == [];
      while i < |data|
        invariant 0 <= i <= |data| && i % 64 == 0
        invariant Registers() == Fold(Compress, from, data[..i])
      {
        FoldOne(Compress, from, data[..i], data[i..i + 64]);
        assert data[..i] + data[i..i + 64] == data[..i + 64];
        OneBlock(data[i..i + 64]);
        i := i + 64;
      }
      assert data[..i] == data;
    }

    method OneBlock(block: Block)
      modifies `a, `b, `c, `d
      ensures Registers() == Compress(old(Registers()), block)
    {
      hide Words, ProgramStep, Step, Steps, Add;
      ghost var from := Registers();
      var m := Words(block);
      var savedA, savedB, savedC, savedD := a, b, c, d;
      NoSteps(from, m);
      for q := 0 to 16
        invariant Registers() == Steps(from, m, 4 * q)
      {
        ghost var s := Registers();
        StepsFour(from, m, 4 * q);
        a := ProgramStep(4 * q, a, b, c, d, m);
        d := ProgramStep(4 * q + 1, d, a, b, c, m);
        c := ProgramStep(4 * q + 2, c, d, a, b, m);
        b := ProgramStep(4 * q + 3, b, c, d, a, m);
        FourSteps(4 * q, s, m, a, d, c, b);
      }
      a := Add(a, savedA);
      b := Add(b, savedB);
      c := Add(c, savedC);
      d := Add(d, savedD);
    }

    /** MD5_hash */
    method Update(src: Bytes)
      requires Valid()
      modifies this, buffer
      ensures Valid() && hashed == old(hashed) + src
    {
      hide Compress, Folded, Whole, Tail, Counts, Fold;
      ghost var msg := hashed;
      CountsPending(lo, hi, |msg|);
      var used := lo % 64;
      AddCount(|src|, |msg|);
      Absorb(used, src, msg);
      hashed := msg + src;
    }

    /** The two counters after `size` more bytes. */
    method AddCount(size: nat, ghost n: nat)
      requires Counts(lo, hi, n)
      modifies `lo, `hi
      ensures Counts(lo, hi, n + size)
    {
      CountsAdd(lo, hi, n, size);
      var savedLo := lo;
      lo := (savedLo + size) % TWO_TO_29;
      if lo < savedLo { hi := (hi + 1) % TWO_TO_32; }
      hi := (hi + size / TWO_TO_29) % TWO_TO_32;
    }

    /** The bytes themselves: fill the pending block, then the rest. */
    method Absorb(used: nat, src: Bytes, ghost msg: Bytes)
      requires buffer.Length == 64 && used == |msg| % 64
      requires Registers() == After(msg) && buffer[..used] == Tail(msg)
      modifies `a, `b, `c, `d, buffer
      ensures Registers() == After(msg + src)
      ensures buffer[..|msg + src| % 64] == Tail(msg + src)
    {
      hide Compress, Folded, Whole, Tail, Fold;
      if used == 0 {
        assert Tail(msg) == [];
        AppendAligned(Compress, INITIAL_STATE, msg, src);
        Rest(src);
        return;
      }
      var available := 64 - used;
      if |src| < available {
        Copy(used, src);
        AppendShort(Compress, INITIAL_STATE, msg, src);
        assert buffer[..used + |src|] == Tail(msg) + src;
        return;
      }
      Copy(used, src[..available]);
      assert buffer[..] == Tail(msg) + src[..available];
      BlockIsFold(Registers(), buffer[..]);
      Body(buffer[..]);
      AppendLong(Compress, INITIAL_STATE, msg, src, available);
      Rest(src[available..]);
    }

    /** The complete blocks of what is left, and then its tail. */
    method Rest(src: Bytes)
      requires buffer.Length == 64
      modifies `a, `b, `c, `d, buffer
      ensures Registers() == Folded(Compress, old(Registers()), src)
      ensures buffer[..|src| % 64] == Tail(src)
    {
      hide Compress;
      if |src| >= 64 { Body(Whole(src)); }
      Copy(0, Tail(src));
    }

    /** MD5_end: the digest comes out and the context is wiped. */
    method Final() returns (digest: Bytes)
      requires Valid()
      modifies this, buffer
      ensures digest == Hash(old(hashed))
      ensures lo == hi == 0 && Registers() == State(0, 0, 0, 0) && buffer[..] == ZERO_BLOCK
    {
      hide Compress, Padding, EncodeWord;
      ghost var msg := hashed;
      Pad();
      digest := EncodeWord(a) + EncodeWord(b) + EncodeWord(c) + EncodeWord(d);
      Copy(0, Zeros(64));
      assert buffer[..] == ZERO_BLOCK;
      a, b, c, d, lo, hi := 0, 0, 0, 0, 0, 0;
      hashed := [];
    }

    /** The padding that MD5_end adds. */
    method Pad()
      requires Valid()
      modifies this, buffer
      ensures Registers() == Padding(old(hashed)) && buffer.Length == 64
    {
      hide Compress, Folded, Whole, Tail, Counts, Length64, ProgramLength64;
      ghost var msg := hashed;
      CountsPending(lo, hi, |msg|);
      LengthForm(lo, hi, |msg|);
      LengthBytes(lo, hi);
      FoldPadded(Compress, INITIAL_STATE, msg, Length64(8 * |msg| % TWO_TO_64));
      var used := lo % 64;
      var available := 63 - used;
      if available < 8 {
        Copy(used, [0x80] + Zeros(available));
        assert buffer[..] == OverflowBlock(Tail(msg));
        BlockIsFold(Registers(), buffer[..]);
        Body(buffer[..]);
        Copy(0, Zeros(56));
        assert buffer[..56] == Zeros(56);
      } else {
        Copy(used, [0x80] + Zeros(available - 8));
        assert buffer[..56] == Tail(msg) + [0x80] + Zeros(55 - used);
      }
      ghost var start := buffer[..56];
      Copy(56, ProgramLength64(lo, hi));
      assert buffer[..] == start + Length64(8 * |msg| % TWO_TO_64);
      BlockIsFold(Registers(), buffer[..]);
      Body(buffer[..]);
    }
  }

  lemma NoSteps(s: State, m: Message)
    ensures Steps(s, m, 0) == s
  {
  }

  lemma LengthBytes(lo: nat, hi: nat)
    ensures |ProgramLength64(lo, hi)| == 8
  {
  }

  lemma BlockIsFold(s: State, b: Block)
    ensures Fold(Compress, s, b) == Compress(s, b)
  {
    hide Compress;
    FoldOne(Compress, s, [], b);
    assert [] + b == b;
  }

  /** However a message is cut into pieces, the digest is that of the whole message. */
  method HashPieces(pieces: seq<Bytes>) returns (digest: Bytes)
    ensures digest == Hash(Joined(pieces))
  {
    hide Hash;
    var c := new Context();
    assert pieces[0..] == pieces && [] + Joined(pieces) == Joined(pieces);
    for i := 0 to |pieces|
      invariant c.Valid() && fresh(c) && fresh(c.buffer)
      invariant c.hashed + Joined(pieces[i..]) == Joined(pieces)
    {
      assert pieces[i..][1..] == pieces[i + 1..];
      assert c.hashed + (pieces[i] + Joined(pieces[i + 1..])) == c.hashed + pieces[i] + Joined(pieces[i + 1..]);
      c.Update(pieces[i]);
    }
    assert c.hashed + [] == c.hashed;
    digest := c.Final();
  }
}

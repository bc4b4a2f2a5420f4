/** SHA-256 as scripts/mkhash.c computes it (lines 98-133 and 402-675), against sections 4 to 6
    of FIPS 180-4. */
module Sha256 {
  import opened HashBlocks
  import opened Numbers

  // ----- FIPS 180-4 -----

  function Rotr(x: Word, n: nat): Word
    requires 0 < n < 32
  {
    (x >> n) | (x << (32 - n))
  }

  function Ch(x: Word, y: Word, z: Word): Word { (x & y) ^ (!x & z) }

  function Maj(x: Word, y: Word, z: Word): Word { (x & y) ^ (x & z) ^ (y & z) }

  function BigSigma0(x: Word): Word { Rotr(x, 2) ^ Rotr(x, 13) ^ Rotr(x, 22) }

  function BigSigma1(x: Word): Word { Rotr(x, 6) ^ Rotr(x, 11) ^ Rotr(x, 25) }

  function Sigma0(x: Word): Word { Rotr(x, 7) ^ Rotr(x, 18) ^ (x >> 3) }

  function Sigma1(x: Word): Word { Rotr(x, 17) ^ Rotr(x, 19) ^ (x >> 10) }

  const K: seq<Word> := [
    0x428a2f98, 0x71374491, 0xb5c0fbcf, 0xe9b5dba5, 0x3956c25b, 0x59f111f1, 0x923f82a4, 0xab1c5ed5,
    0xd807aa98, 0x12835b01, 0x243185be, 0x550c7dc3, 0x72be5d74, 0x80deb1fe, 0x9bdc06a7, 0xc19bf174,
    0xe49b69c1, 0xefbe4786, 0x0fc19dc6, 0x240ca1cc, 0x2de92c6f, 0x4a7484aa, 0x5cb0a9dc, 0x76f988da,
    0x983e5152, 0xa831c66d, 0xb00327c8, 0xbf597fc7, 0xc6e00bf3, 0xd5a79147, 0x06ca6351, 0x14292967,
    0x27b70a85, 0x2e1b2138, 0x4d2c6dfc, 0x53380d13, 0x650a7354, 0x766a0abb, 0x81c2c92e, 0x92722c85,
    0xa2bfe8a1, 0xa81a664b, 0xc24b8b70, 0xc76c51a3, 0xd192e819, 0xd6990624, 0xf40e3585, 0x106aa070,
    0x19a4c116, 0x1e376c08, 0x2748774c, 0x34b0bcb5, 0x391c0cb3, 0x4ed8aa4a, 0x5b9cca4f, 0x682e6ff3,
    0x748f82ee, 0x78a5636f, 0x84c87814, 0x8cc70208, 0x90befffa, 0xa4506ceb, 0xbef9a3f7, 0xc67178f2
  ]

  const INITIAL_STATE: seq<Word> := [
    0x6A09E667, 0xBB67AE85, 0x3C6EF372, 0xA54FF53A, 0x510E527F, 0x9B05688C, 0x1F83D9AB, 0x5BE0CD19
  ]

  type State = s: seq<Word> | |s| == 8 witness INITIAL_STATE

  type Message = m: seq<Word> | |m| == 16 witness seq(16, _ => 0)

  /** The message schedule, section 6.2.2, step 1. */
  function Schedule(m: Message, t: nat): Word {
    if t < 16 then m[t]
    else Expand(Schedule(m, t - 2), Schedule(m, t - 7), Schedule(m, t - 15), Schedule(m, t - 16))
  }

  function Expand(w2: Word, w7: Word, w15: Word, w16: Word): Word { Sigma1(w2) + w7 + Sigma0(w15) + w16 }

  function T1(e: Word, f: Word, g: Word, h: Word, k: Word, w: Word): Word {
    Sum5(h, BigSigma1(e), Ch(e, f, g), k, w)
  }

  function T2(a: Word, b: Word, c: Word): Word { Add(BigSigma0(a), Maj(a, b, c)) }

  function Add(x: Word, y: Word): Word { x + y }

  function Sum5(h: Word, s: Word, c: Word, k: Word, w: Word): Word { h + s + c + k + w }

  /** One round of section 6.2.2, step 3: the eight registers a to h move down by one. */
  function Round(s: State, k: Word, w: Word): State {
    var t1 := T1(s[4], s[5], s[6], s[7], k, w);
    [Add(t1, T2(s[0], s[1], s[2])), s[0], s[1], s[2], Add(s[3], t1), s[4], s[5], s[6]]
  }

  function Rounds(s: State, m: Message, t: nat): State
    requires t <= 64
  {
    if t == 0 then s else Round(Rounds(s, m, t - 1), K[t - 1], Schedule(m, t - 1))
  }

  function Words(b: Block): (m: Message)
    ensures forall i :: 0 <= i < 16 ==> m[i] == BigEndian(b[4 * i..4 * i + 4])
  {
    seq(16, i requires 0 <= i < 16 => BigEndian(b[4 * i..4 * i + 4]))
  }

  function Sums(a: State, b: State): (r: State)
    ensures forall i :: 0 <= i < 8 ==> r[i] == Add(a[i], b[i])
  {
    seq(8, i requires 0 <= i < 8 => Add(a[i], b[i]))
  }

  /** The block function of section 6.2.2. */
  function Compress(s: State, b: Block): State { Sums(s, Rounds(s, Words(b), 64)) }

  /** A number below 2^64 as eight bytes, the highest first. */
  function Length64(n: nat): Bytes {
    [Octet(n, 0x1_00_0000_0000_0000), Octet(n, 0x1_0000_0000_0000), Octet(n, 0x100_0000_0000),
     Octet(n, 0x1_0000_0000), Octet(n, 0x100_0000), Octet(n, 0x1_0000), Octet(n, 0x100), Octet(n, 1)]
  }

  function EncodeWord(u: Word): Bytes {
    [((u >> 24) & 0xff) as bv8, ((u >> 16) & 0xff) as bv8, ((u >> 8) & 0xff) as bv8, (u & 0xff) as bv8]
  }

  function Encode(ws: seq<Word>): (r: Bytes)
    ensures |r| == 4 * |ws|
  {
    if ws == [] then [] else EncodeWord(ws[0]) + Encode(ws[1..])
  }

  /** The length field counts bits modulo 2^64, which is exact for every message FIPS admits. */
  function Hash(msg: Bytes): Bytes {
    var length := Length64(8 * |msg| % TWO_TO_64);
    PaddedWhole(msg, length);
    Encode(Fold<State>(Compress, INITIAL_STATE, Padded(msg, length)))
  }

  // ----- the program's forms -----

  function ProgramCh(x: Word, y: Word, z: Word): Word { (x & (y ^ z)) ^ z }

  function ProgramMaj(x: Word, y: Word, z: Word): Word { (x & (y | z)) | (y & z) }

  lemma ChBits(x: Word, y: Word, z: Word)
    ensures (x & (y ^ z)) ^ z == (x & y) ^ (!x & z)
  {
  }

  lemma MajBits(x: Word, y: Word, z: Word)
    ensures (x & (y | z)) | (y & z) == (x & y) ^ (x & z) ^ (y & z)
  {
  }

  lemma ChForm(x: Word, y: Word, z: Word)
    ensures ProgramCh(x, y, z) == Ch(x, y, z)
  {
    ChBits(x, y, z);
  }

  lemma MajForm(x: Word, y: Word, z: Word)
    ensures ProgramMaj(x, y, z) == Maj(x, y, z)
  {
    MajBits(x, y, z);
  }

  /** be32dec: two big-endian halves. */
  function DecodeWord(b: Bytes): Word
    requires |b| == 4
  {
    (((b[0] as Word << 8) | b[1] as Word) << 16) | ((b[2] as Word << 8) | b[3] as Word)
  }

  lemma DecodeIsBigEndian(b: Bytes)
    requires |b| == 4
    ensures DecodeWord(b) == BigEndian(b)
  {
  }

  lemma DecodeEncode(u: Word)
    ensures BigEndian(EncodeWord(u)) == u
  {
  }

  /** The digest determines the state, so no state word is lost or swapped by the encoding. */
  lemma {:induction false} EncodeAt(ws: seq<Word>, i: nat)
    requires i < |ws|
    ensures Encode(ws)[4 * i..4 * i + 4] == EncodeWord(ws[i])
    ensures BigEndian(Encode(ws)[4 * i..4 * i + 4]) == ws[i]
  {
    if i > 0 {
      EncodeAt(ws[1..], i - 1);
      assert Encode(ws)[4 * i..4 * i + 4] == Encode(ws[1..])[4 * (i - 1)..4 * (i - 1) + 4];
    }
    DecodeEncode(ws[i]);
  }

  // ----- rotating registers -----

  /** The cells as the program sees them when register a is in cell `r`. */
  function View<T>(s: seq<T>, r: nat): (v: seq<T>)
    requires |s| == 8 && r < 8
    ensures |v| == 8
  {
    s[r..] + s[..r]
  }

  /** The cell `k` places after cell `r`. */
  function Cell(r: nat, k: nat): (c: nat)
    ensures c < 8
  {
    (r + k) % 8
  }

  lemma CellIs(r: nat, k: nat)
    requires r < 8 && k < 8
    ensures Cell(r, k) == if r + k < 8 then r + k else r + k - 8
  {
  }

  lemma CellAt<T>(s: seq<T>, r: nat, k: nat)
    requires |s| == 8 && r < 8 && k < 8
    ensures View(s, r)[k] == s[Cell(r, k)]
  {
    CellIs(r, k);
  }

  lemma StoreAt<T>(s: seq<T>, r: nat, k: nat, x: T)
    requires |s| == 8 && r < 8 && k < 8
    ensures View(s[Cell(r, k) := x], r) == View(s, r)[k := x]
  {
    CellIs(r, k);
  }

  lemma CountBack<T>(s: seq<T>, r: nat)
    requires |s| == 8 && r < 8
    ensures View(s, Cell(r, 7)) == [View(s, r)[7]] + View(s, r)[..7]
  {
    CellIs(r, 7);
  }

  lemma CellsApart(r: nat, j: nat, k: nat)
    requires r < 8 && j < 8 && k < 8 && j != k
    ensures Cell(r, j) != Cell(r, k)
  {
    CellIs(r, j);
    CellIs(r, k);
  }

  /** Storing into the cells of d and h only, and then counting from one cell earlier, moves
      all eight registers down by one. */
  lemma Rotates<T>(s: seq<T>, r: nat, d: T, h: T)
    requires |s| == 8 && r < 8
    ensures var v := View(s, r);
            View(s[Cell(r, 3) := d][Cell(r, 7) := h], Cell(r, 7)) == [h, v[0], v[1], v[2], d, v[4], v[5], v[6]]
  {
    hide View, Cell;
    var s1 := s[Cell(r, 3) := d];
    var s2 := s1[Cell(r, 7) := h];
    StoreAt(s, r, 3, d);
    StoreAt(s1, r, 7, h);
    CountBack(s2, r);
  }

  /** The order in which the program adds. */
  function ProgramSum(h: Word, s: Word, c: Word, k: Word, w: Word): Word { h + (s + c + (w + k)) }

  lemma SumOrder(h: Word, s: Word, c: Word, k: Word, w: Word)
    ensures ProgramSum(h, s, c, k, w) == Sum5(h, s, c, k, w)
  {
    SumBits(h, s, c, k, w);
  }

  lemma SumBits(h: Word, s: Word, c: Word, k: Word, w: Word)
    ensures h + (s + c + (w + k)) == h + s + c + k + w
  {
  }

  function ProgramT1(e: Word, f: Word, g: Word, h: Word, k: Word, w: Word): Word {
    ProgramSum(h, BigSigma1(e), ProgramCh(e, f, g), k, w)
  }

  function ProgramA(a: Word, b: Word, c: Word, h: Word): Word {
    Add(h, Add(BigSigma0(a), ProgramMaj(a, b, c)))
  }

  lemma ProgramT1Is(e: Word, f: Word, g: Word, h: Word, k: Word, w: Word)
    ensures ProgramT1(e, f, g, h, k, w) == T1(e, f, g, h, k, w)
  {
    hide Ch, ProgramCh, BigSigma1, ProgramSum, Sum5;
    ChForm(e, f, g);
    SumOrder(h, BigSigma1(e), Ch(e, f, g), k, w);
  }

  lemma ProgramAIs(a: Word, b: Word, c: Word, h: Word)
    ensures ProgramA(a, b, c, h) == Add(h, T2(a, b, c))
  {
    hide Maj, ProgramMaj, BigSigma0, Add;
    MajForm(a, b, c);
  }

  /** RND on the cells of the eight registers. */
  method Rnd(s: array<Word>, a: nat, b: nat, c: nat, d: nat, e: nat, f: nat, g: nat, h: nat,
             k: Word, w: Word)
    requires s.Length == 8 && a < 8 && b < 8 && c < 8 && d < 8 && e < 8 && f < 8 && g < 8 && h < 8
    requires d != a && d != b && d != c && d != e && d != f && d != g && d != h
    requires h != a && h != b && h != c && h != e && h != f && h != g
    modifies s
    ensures var o := old(s[..]);
            var t1 := T1(o[e], o[f], o[g], o[h], k, w);
            s[..] == o[d := Add(o[d], t1)][h := Add(t1, T2(o[a], o[b], o[c]))]
  {
    hide ProgramT1, ProgramA, T1, T2, Add;
    ghost var o := s[..];
    ghost var t1 := T1(o[e], o[f], o[g], o[h], k, w);
    ProgramT1Is(o[e], o[f], o[g], o[h], k, w);
    ProgramAIs(o[a], o[b], o[c], t1);
    s[h] := ProgramT1(s[e], s[f], s[g], s[h], k, w);
    s[d] := Add(s[d], s[h]);
    s[h] := ProgramA(s[a], s[b], s[c], s[h]);
  }

  /** RND with register a in cell `r`. */
  method RoundFrom(s: array<Word>, r: nat, w: Word, k: Word)
    requires s.Length == 8 && r < 8
    modifies s
    ensures View(s[..], Cell(r, 7)) == Round(old(View(s[..], r)), k, w)
  {
    hide View, Round, T1, T2, Add, Cell;
    RoundAt(s[..], r, k, w);
    forall j | 0 <= j < 8 && j != 3 ensures Cell(r, 3) != Cell(r, j) { CellsApart(r, 3, j); }
    forall j | 0 <= j < 7 ensures Cell(r, 7) != Cell(r, j) { CellsApart(r, 7, j); }
    Rnd(s, Cell(r, 0), Cell(r, 1), Cell(r, 2), Cell(r, 3), Cell(r, 4), Cell(r, 5), Cell(r, 6), Cell(r, 7), k, w);
  }

  /** RNDr: RND at the cells of round `i`, the j-th being (64 - i + j) mod 8. */
  method RotatedRound(s: array<Word>, i: nat, w: Word, k: Word)
    requires s.Length == 8 && i < 16
    modifies s
    ensures View(s[..], (63 - i) % 8) == Round(old(View(s[..], (64 - i) % 8)), k, w)
  {
    hide View, Round;
    NamedCell(i, 7);
    RoundFrom(s, (64 - i) % 8, w, k);
    assert (63 - i) % 8 == Cell((64 - i) % 8, 7);
  }

  /** Cells counted from register a's are the ones the macro names. */
  lemma NamedCell(i: nat, j: nat)
    requires i < 16
    ensures (64 - i + j) % 8 == Cell((64 - i) % 8, j)
  {
  }

  lemma RoundAt(s: State, r: nat, k: Word, w: Word)
    requires r < 8
    ensures var t1 := T1(s[Cell(r, 4)], s[Cell(r, 5)], s[Cell(r, 6)], s[Cell(r, 7)], k, w);
            View(s[Cell(r, 3) := Add(s[Cell(r, 3)], t1)]
                  [Cell(r, 7) := Add(t1, T2(s[Cell(r, 0)], s[Cell(r, 1)], s[Cell(r, 2)]))], Cell(r, 7))
            == Round(View(s, r), k, w)
  {
    hide T1, T2, Add, View, Cell;
    forall i | 0 <= i < 8 ensures View(s, r)[i] == s[Cell(r, i)] { CellAt(s, r, i); }
    var t1 := T1(s[Cell(r, 4)], s[Cell(r, 5)], s[Cell(r, 6)], s[Cell(r, 7)], k, w);
    Rotates(s, r, Add(s[Cell(r, 3)], t1), Add(t1, T2(s[Cell(r, 0)], s[Cell(r, 1)], s[Cell(r, 2)])));
  }

  // ----- SHA256_Transform -----

  ghost predicate Scheduled(w: seq<Word>, m: Message, n: nat) {
    n <= |w| && forall t :: 0 <= t < n ==> w[t] == Schedule(m, t)
  }

  /** be32dec_vect on a block. */
  method DecodeBlock(w: array<Word>, block: Block)
    requires w.Length == 64
    modifies w
    ensures Scheduled(w[..], Words(block), 16)
  {
    hide DecodeWord, BigEndian;
    for i := 0 to 16
      invariant forall t :: 0 <= t < i ==> w[t] == Words(block)[t]
    {
      DecodeIsBigEndian(block[4 * i..4 * i + 4]);
      w[i] := DecodeWord(block[4 * i..4 * i + 4]);
    }
  }

  /** Sixteen RNDr bring register a back to the first cell. */
  method SixteenRounds(s: array<Word>, w: array<Word>, i: nat, ghost from: State, ghost m: Message)
    requires s.Length == 8 && w.Length == 64 && s != w && i <= 48
    requires Scheduled(w[..], m, i + 16) && View(s[..], 0) == Rounds(from, m, i)
    modifies s
    ensures View(s[..], 0) == Rounds(from, m, i + 16)
  {
    hide View, Round, Rounds, Schedule;
    for j := 0 to 16
      invariant w[..] == old(w[..])
      invariant View(s[..], (64 - j) % 8) == Rounds(from, m, i + j)
    {
      assert w[..][i + j] == Schedule(m, i + j);
      NextRound(from, m, i + j);
      RotatedRound(s, j, w[i + j], K[i + j]);
      assert (64 - (j + 1)) % 8 == (63 - j) % 8;
    }
  }

  lemma NextRound(s: State, m: Message, t: nat)
    requires t < 64
    ensures Rounds(s, m, t + 1) == Round(Rounds(s, m, t), K[t], Schedule(m, t))
  {
  }

  /** Sixteen MSCH. */
  method ExtendSchedule(w: array<Word>, i: nat, ghost m: Message)
    requires w.Length == 64 && i + 32 <= 64 && Scheduled(w[..], m, i + 16)
    modifies w
    ensures Scheduled(w[..], m, i + 32)
  {
    hide Expand;
    for j := 0 to 16
      invariant Scheduled(w[..], m, i + 16 + j)
    {
      ghost var before, t := w[..], i + j + 16;
      assert before[t - 2] == Schedule(m, t - 2) && before[t - 7] == Schedule(m, t - 7)
             && before[t - 15] == Schedule(m, t - 15) && before[t - 16] == Schedule(m, t - 16);
      w[i + j + 16] := Expand(w[i + j + 14], w[i + j + 9], w[i + j + 1], w[i + j]);
      assert w[..] == before[t := Schedule(m, t)];
    }
  }

  method Transform(state: array<Word>, block: Block)
    requires state.Length == 8
    modifies state
    ensures state[..] == Compress(old(state[..]), block)
  {
    hide Add, Words, View, Rounds, Scheduled;
    ghost var from: State, m: Message := state[..], Words(block);
    var w := new Word[64];
    DecodeBlock(w, block);
    var s := new Word[8](i requires 0 <= i < 8 reads state => state[i]);
    assert s[..] == from;
    ViewStart(from, m);
    var i := 0;
    while i < 64
      invariant 0 <= i <= 48 && i % 16 == 0
      invariant state[..] == from
      invariant Scheduled(w[..], m, i + 16) && View(s[..], 0) == Rounds(from, m, i)
    {
      SixteenRounds(s, w, i, from, m);
      if i == 48 { break; }
      ExtendSchedule(w, i, m);
      i := i + 16;
    }
    ViewStart(s[..], m);
    ghost var end: State := s[..];
    assert end == Rounds(from, m, 64);
    for j := 0 to 8
      invariant s[..] == end
      invariant forall k :: 0 <= k < j ==> state[k] == Add(from[k], end[k])
      invariant forall k :: j <= k < 8 ==> state[k] == from[k]
    {
      state[j] := Add(state[j], s[j]);
    }
    assert state[..] == Sums(from, end);
  }

  lemma ViewStart(s: State, m: Message)
    ensures View(s, 0) == s == Rounds(s, m, 0)
  {
  }

  /** be32enc_vect */
  method EncodeVector(ws: seq<Word>) returns (bytes: Bytes)
    ensures bytes == Encode(ws)
  {
    bytes := [];
    assert ws[0..] == ws;
    for i := 0 to |ws|
      invariant bytes + Encode(ws[i..]) == Encode(ws)
    {
      assert ws[i..][1..] == ws[i + 1..];
      assert bytes + (EncodeWord(ws[i]) + Encode(ws[i + 1..])) == bytes + EncodeWord(ws[i]) + Encode(ws[i + 1..]);
      bytes := bytes + EncodeWord(ws[i]);
    }
    assert bytes + [] == bytes;
  }

  // ----- the streaming context -----

  function After(msg: Bytes): State { Folded<State>(Compress, INITIAL_STATE, msg) }

  /** The bit count tells how many bytes are pending, even after it has wrapped. */
  lemma PendingBytes(n: nat)
    ensures (8 * n % TWO_TO_64) / 8 % 64 == n % 64
  {
    var q, x := 8 * n / TWO_TO_64, 8 * n % TWO_TO_64;
    assert n == 64 * (TWO_TO_64 / 512 * q) + x / 8;
    Mod64(TWO_TO_64 / 512 * q, x / 8);
  }

  lemma CountAdds(n: nat, len: nat)
    ensures (8 * n % TWO_TO_64 + 8 * len % TWO_TO_64) % TWO_TO_64 == 8 * (n + len) % TWO_TO_64
  {
    var a, b := 8 * n, 8 * len;
    assert a == TWO_TO_64 * (a / TWO_TO_64) + a % TWO_TO_64 && b == TWO_TO_64 * (b / TWO_TO_64) + b % TWO_TO_64;
    var x := a % TWO_TO_64 + b % TWO_TO_64;
    assert a + b == TWO_TO_64 * (a / TWO_TO_64 + b / TWO_TO_64) + x;
    ModDrop(a / TWO_TO_64 + b / TWO_TO_64, x);
  }

  lemma ModDrop(q: nat, x: nat)
    ensures (TWO_TO_64 * q + x) % TWO_TO_64 == x % TWO_TO_64
  {
  }

  /** be64enc: the two halves as 32-bit words. */
  function ProgramLength64(n: nat): Bytes { EncodeNat32(n / 0x1_0000_0000) + EncodeNat32(n % 0x1_0000_0000) }

  function EncodeNat32(u: nat): Bytes { [Octet(u, 0x100_0000), Octet(u, 0x1_0000), Octet(u, 0x100), Octet(u, 1)] }

  lemma LengthForm(n: nat)
    ensures ProgramLength64(n) == Length64(n)
  {
    HighHalf(n, 0x100_0000, 0x1_00_0000_0000_0000);
    HighHalf(n, 0x1_0000, 0x1_0000_0000_0000);
    HighHalf(n, 0x100, 0x100_0000_0000);
    HighHalf(n, 1, 0x1_0000_0000);
    LowHalf(n, 0x100_0000, 1);
    LowHalf(n, 0x1_0000, 0x100);
    LowHalf(n, 0x100, 0x1_0000);
    LowHalf(n, 1, 0x100_0000);
  }

  class Context {
    const state: array<Word>
    const buf: array<bv8>
    var count: nat
    ghost var hashed: Bytes

    /** What the context keeps of the bytes hashed so far, however they arrived. */
    ghost predicate Valid()
      reads this, state, buf
    {
      && state.Length == 8 && buf.Length == 64
      && count == 8 * |hashed| % TWO_TO_64
      && state[..] == After(hashed)
      && buf[..|hashed| % 64] == Tail(hashed)
    }

    /** SHA256_Init */
    constructor ()
      ensures Valid() && hashed == [] && fresh(state) && fresh(buf)
    {
      state := new Word[8](i requires 0 <= i < 8 => INITIAL_STATE[i]);
      buf := new bv8[64];
      count := 0;
      hashed := [];
      new;
      hide *;
      InitialContext(this);
    }

    /** memcpy into the buffer */
    method Copy(at: nat, src: Bytes)
      requires buf.Length == 64 && at + |src| <= 64
      modifies buf
      ensures buf[..] == old(buf[..at]) + src + old(buf[at + |src|..])
    {
      for i := 0 to |src|
        invariant forall j :: 0 <= j < at || at + |src| <= j < 64 ==> buf[j] == old(buf[j])
        invariant forall j :: 0 <= j < i ==> buf[at + j] == src[j]
      {
        buf[at + i] := src[i];
      }
    }

    /** SHA256_Update */
    method Update(src: Bytes)
      requires Valid()
      modifies this, state, buf
      ensures Valid() && hashed == old(hashed) + src
    {
      hide Compress, Folded, Whole, Tail;
      ghost var msg := hashed;
      PendingBytes(|msg|);
      CountAdds(|msg|, |src|);
      var r := count / 8 % 64;
      var bitlen := 8 * |src| % TWO_TO_64;
      count := (count + bitlen) % TWO_TO_64;
      hashed := msg + src;
      var fill := 64 - r;
      if |src| < fill {
        Copy(r, src);
        AppendShort<State>(Compress, INITIAL_STATE, msg, src);
        assert buf[..r + |src|] == Tail(msg) + src;
        return;
      }
      Copy(r, src[..fill]);
      assert buf[..] == Tail(msg) + src[..fill];
      Transform(state, buf[..]);
      AppendLong<State>(Compress, INITIAL_STATE, msg, src, fill);
      var rest := src[fill..];
      CompleteBlocks(rest);
      var left := Tail(rest);
      Copy(0, left);
      assert buf[..|left|] == left;
    }

    /** The loop over complete blocks. */
    method CompleteBlocks(src: Bytes)
      requires state.Length == 8
      modifies state
      ensures state[..] == Folded<State>(Compress, old(state[..]), src)
    {
      hide Compress;
      ghost var from: State := state[..];
      var i := 0;
      while |src| - i >= 64
        invariant 0 <= i <= |src| && i % 64 == 0
        invariant state[..] == Fold<State>(Compress, from, src[..i])
      {
        FoldOne<State>(Compress, from, src[..i], src[i..i + 64]);
        assert src[..i] + src[i..i + 64] == src[..i + 64];
        Transform(state, src[i..i + 64]);
        i := i + 64;
      }
      assert src[..i] == Whole(src);
    }

    /** SHA256_Pad */
    method Pad()
      requires Valid()
      modifies state, buf
      ensures state[..] == Padding(hashed)
    {
      hide Compress, Folded, Whole, Tail, Length64, ProgramLength64;
      ghost var msg := hashed;
      PendingBytes(|msg|);
      LengthForm(count);
      LengthBytes(count);
      FoldPadded<State>(Compress, INITIAL_STATE, msg, Length64(8 * |msg| % TWO_TO_64));
      var r := count / 8 % 64;
      if r < 56 {
        Copy(r, [0x80] + Zeros(55 - r));
        assert buf[..56] == Tail(msg) + [0x80] + Zeros(55 - r);
      } else {
        Copy(r, [0x80] + Zeros(63 - r));
        assert buf[..] == OverflowBlock(Tail(msg));
        Transform(state, buf[..]);
        Copy(0, Zeros(56));
        assert buf[..56] == Zeros(56);
      }
      ghost var start := buf[..56];
      Copy(56, ProgramLength64(count));
      assert buf[..] == start + Length64(count);
      Transform(state, buf[..]);
    }

    /** SHA256_Final: the digest comes out and the context is wiped. */
    method Final() returns (digest: Bytes)
      requires Valid()
      modifies this, state, buf
      ensures digest == Hash(old(hashed))
      ensures count == 0 && state[..] == seq(8, _ => 0) && buf[..] == ZERO_BLOCK
    {
      hide Padding, Hash, Encode, After, Tail;
      ghost var msg := hashed;
      Pad();
      HashIsPadding(msg);
      digest := EncodeVector(state[..]);
      Wipe();
    }

    /** memset of the context */
    method Wipe()
      requires state.Length == 8 && buf.Length == 64
      modifies this, state, buf
      ensures count == 0 && state[..] == seq(8, _ => 0) && buf[..] == ZERO_BLOCK
    {
      for i := 0 to 8
        invariant forall j :: 0 <= j < i ==> state[j] == 0
      {
        state[i] := 0;
      }
      for i := 0 to 64
        invariant state[..] == seq(8, _ => 0)
        invariant forall j :: 0 <= j < i ==> buf[j] == 0
      {
        buf[i] := 0;
      }
      count := 0;
      hashed := [];
    }
  }

  /** The final state, as the message's padding defines it. */
  function Padding(msg: Bytes): State {
    var length := Length64(8 * |msg| % TWO_TO_64);
    PaddedWhole(msg, length);
    Fold<State>(Compress, INITIAL_STATE, Padded(msg, length))
  }

  lemma HashIsPadding(msg: Bytes)
    ensures Hash(msg) == Encode(Padding(msg))
  {
  }

  lemma LengthBytes(n: nat)
    ensures |ProgramLength64(n)| == |Length64(n)| == 8
  {
  }

  lemma InitialContext(c: Context)
    requires c.state.Length == 8 && c.buf.Length == 64 && c.count == 0 && c.hashed == []
    requires forall i :: 0 <= i < 8 ==> c.state[i] == INITIAL_STATE[i]
    ensures c.Valid()
  {
    hide Compress, Folded, Tail;
    assert c.state[..] == INITIAL_STATE;
    NothingFolded<State>(Compress, INITIAL_STATE);
  }

  /** However a message is cut into pieces, the digest is that of the whole message. */
  method HashPieces(pieces: seq<Bytes>) returns (digest: Bytes)
    ensures digest == Hash(Joined(pieces))
  {
    hide Hash;
    var c := new Context();
    assert pieces[0..] == pieces && [] + Joined(pieces) == Joined(pieces);
    for i := 0 to |pieces|
      invariant c.Valid() && fresh(c) && fresh(c.state) && fresh(c.buf)
      invariant c.hashed + Joined(pieces[i..]) == Joined(pieces)
    {
      assert pieces[i..][1..] == pieces[i + 1..];
      assert c.hashed + (pieces[i] + Joined(pieces[i + 1..])) == c.hashed + pieces[i] + Joined(pieces[i + 1..]);
      c.Update(pieces[i]);
    }
    assert c.hashed + [] == c.hashed;
    digest := c.Final();
  }
}

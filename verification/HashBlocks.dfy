/** Hashing a message in 64-byte blocks: the part that SHA-256 and MD5 in scripts/mkhash.c
    share. Padding follows section 5.1.1 of FIPS 180-4 and section 3.1 of RFC 1321. */
module HashBlocks {
  import opened Numbers

  type Bytes = seq<bv8>

  type Word = bv32

  const ZERO_BLOCK: Bytes := seq(64, _ => 0)

  type Block = b: Bytes | |b| == 64 witness ZERO_BLOCK

  /** The state after every block of `data`. */
  function Fold<S>(f: (S, Block) -> S, s: S, data: Bytes): S
    requires |data| % 64 == 0
  {
    if data == [] then s else Fold(f, f(s, data[..64]), data[64..])
  }

  lemma {:induction false} FoldAppend<S>(f: (S, Block) -> S, s: S, a: Bytes, b: Bytes)
    requires |a| % 64 == 0 && |b| % 64 == 0
    ensures Fold(f, s, a + b) == Fold(f, Fold(f, s, a), b)
    decreases |a|
  {
    if a == [] {
      assert a + b == b;
    } else {
      assert (a + b)[..64] == a[..64] && (a + b)[64..] == a[64..] + b;
      FoldAppend(f, f(s, a[..64]), a[64..], b);
    }
  }

  lemma FoldOne<S>(f: (S, Block) -> S, s: S, a: Bytes, b: Block)
    requires |a| % 64 == 0
    ensures Fold(f, s, a + b) == f(Fold(f, s, a), b)
  {
    FoldAppend(f, s, a, b);
    assert b[..64] == b && b[64..] == [];
  }

  function Zeros(k: nat): Bytes { seq(k, _ => 0) }

  /** The bytes of complete blocks, and those left over. */
  function Whole(msg: Bytes): (w: Bytes)
    ensures |w| % 64 == 0 && |w| == |msg| - |msg| % 64
  {
    msg[..|msg| - |msg| % 64]
  }

  function Tail(msg: Bytes): (t: Bytes)
    ensures |t| == |msg| % 64 && Whole(msg) + t == msg
  {
    msg[|msg| - |msg| % 64..]
  }

  lemma Split(w: Bytes, t: Bytes)
    requires |w| % 64 == 0 && |t| < 64
    ensures Whole(w + t) == w && Tail(w + t) == t
  {
    assert |w + t| % 64 == |t|;
  }

  /** The state after the complete blocks of `msg`. */
  function Folded<S>(f: (S, Block) -> S, s: S, msg: Bytes): S { Fold(f, s, Whole(msg)) }

  /** A 1 bit, the fewest zero bits that leave room for the length, and the length. */
  function Padded(msg: Bytes, length: Bytes): Bytes
    requires |length| == 8
  {
    msg + [0x80] + Zeros((119 - |msg| % 64) % 64) + length
  }

  lemma PaddedWhole(msg: Bytes, length: Bytes)
    requires |length| == 8
    ensures |Padded(msg, length)| % 64 == 0
    ensures |Padded(msg, length)| - (|msg| + 9) < 64
  {
  }

  function LastBlock(tail: Bytes, length: Bytes): Block
    requires |tail| < 56 && |length| == 8
  {
    tail + [0x80] + Zeros(55 - |tail|) + length
  }

  function OverflowBlock(tail: Bytes): Block
    requires 56 <= |tail| < 64
  {
    tail + [0x80] + Zeros(63 - |tail|)
  }

  /** Padding takes one more block when the length does not fit behind the tail, else none. */
  lemma FoldPadded<S>(f: (S, Block) -> S, s: S, msg: Bytes, length: Bytes)
    requires |length| == 8
    ensures |Padded(msg, length)| % 64 == 0
    ensures |Tail(msg)| < 56 ==>
              Fold(f, s, Padded(msg, length)) == f(Folded(f, s, msg), LastBlock(Tail(msg), length))
    ensures |Tail(msg)| >= 56 ==>
              Fold(f, s, Padded(msg, length))
              == f(f(Folded(f, s, msg), OverflowBlock(Tail(msg))), Zeros(56) + length)
  {
    var w, t := Whole(msg), Tail(msg);
    PaddedWhole(msg, length);
    if |t| < 56 {
      assert Padded(msg, length) == w + LastBlock(t, length);
      FoldOne(f, s, w, LastBlock(t, length));
    } else {
      var o := OverflowBlock(t);
      assert Padded(msg, length) == w + o + (Zeros(56) + length);
      FoldOne(f, s, w + o, Zeros(56) + length);
      FoldOne(f, s, w, o);
    }
  }

  /** More input that does not fill the pending block. */
  lemma AppendShort<S>(f: (S, Block) -> S, s: S, msg: Bytes, src: Bytes)
    requires |Tail(msg)| + |src| < 64
    ensures Folded(f, s, msg + src) == Folded(f, s, msg) && Tail(msg + src) == Tail(msg) + src
  {
    assert msg + src == Whole(msg) + (Tail(msg) + src);
    Split(Whole(msg), Tail(msg) + src);
  }

  /** More input that fills it: the filled block, then the complete blocks of what is left. */
  lemma AppendLong<S>(f: (S, Block) -> S, s: S, msg: Bytes, src: Bytes, fill: nat)
    requires fill == 64 - |Tail(msg)| <= |src|
    ensures Tail(msg + src) == Tail(src[fill..])
    ensures Folded(f, s, msg + src) == Folded(f, f(Folded(f, s, msg), Tail(msg) + src[..fill]), src[fill..])
  {
    var w, first, rest := Whole(msg), Tail(msg) + src[..fill], src[fill..];
    assert msg + src == w + first + Whole(rest) + Tail(rest);
    Split(w + first + Whole(rest), Tail(rest));
    FoldAppend(f, s, w + first, Whole(rest));
    FoldOne(f, s, w, first);
  }

  /** More input when no block is pending. */
  lemma AppendAligned<S>(f: (S, Block) -> S, s: S, msg: Bytes, src: Bytes)
    requires Tail(msg) == []
    ensures Tail(msg + src) == Tail(src)
    ensures Folded(f, s, msg + src) == Folded(f, Folded(f, s, msg), src)
  {
    assert msg + src == Whole(msg) + Whole(src) + Tail(src);
    Split(Whole(msg) + Whole(src), Tail(src));
    FoldAppend(f, s, Whole(msg), Whole(src));
  }

  function Joined(pieces: seq<Bytes>): Bytes {
    if pieces == [] then [] else pieces[0] + Joined(pieces[1..])
  }

  // ----- numbers as bytes -----

  function BigEndian(b: Bytes): Word
    requires |b| == 4
  {
    (b[0] as Word << 24) | (b[1] as Word << 16) | (b[2] as Word << 8) | b[3] as Word
  }

  /** One base-256 digit. */
  function Octet(n: nat, unit: nat): bv8
    requires unit > 0
  {
    (n / unit % 256) as bv8
  }

  /** The digits of a 64-bit number are those of its two 32-bit halves. */
  lemma HighHalf(n: nat, unit: nat, whole: nat)
    requires unit > 0 && whole == unit * 0x1_0000_0000
    ensures Octet(n / 0x1_0000_0000, unit) == Octet(n, whole)
  {
    var h := n / 0x1_0000_0000;
    var q := h / unit;
    assert h == unit * q + h % unit && n == 0x1_0000_0000 * h + n % 0x1_0000_0000;
    assert n == whole * q + (0x1_0000_0000 * (h % unit) + n % 0x1_0000_0000) by {
      assert 0x1_0000_0000 * (unit * q) == whole * q;
    }
    var rest := 0x1_0000_0000 * (h % unit) + n % 0x1_0000_0000;
    assert rest < whole;
    DivIs(n, whole, q, rest);
  }

  lemma DivIs(n: nat, d: nat, q: nat, r: nat)
    requires d > 0 && n == d * q + r && r < d
    ensures n / d == q
  {
    var e := n / d - q;
    assert d * e == r - n % d;
    Multiple(d, e);
  }

  lemma Multiple(d: int, e: int)
    requires d > 0
    ensures e >= 1 ==> d * e >= d
    ensures e <= -1 ==> d * e <= -d
  {
    if e >= 1 { assert d * (e - 1) >= 0; }
    if e <= -1 { assert d * (-e - 1) >= 0; }
  }

  lemma LowHalf(n: nat, unit: nat, k: nat)
    requires unit > 0 && unit * (256 * k) == 0x1_0000_0000
    ensures Octet(n % 0x1_0000_0000, unit) == Octet(n, unit)
  {
    var l, h := n % 0x1_0000_0000, n / 0x1_0000_0000;
    var q := 256 * (k * h) + l / unit;
    assert n == unit * q + l % unit by {
      assert unit * (256 * k) * h == unit * (256 * (k * h));
    }
    DivIs(n, unit, q, l % unit);
    Mod256(k * h, l / unit);
  }

  lemma Mod256(q: nat, x: nat)
    ensures (256 * q + x) % 256 == x % 256
  {
  }

  lemma Mod64(q: nat, x: nat)
    ensures (64 * q + x) % 64 == x % 64
  {
  }

  lemma NothingFolded<S>(f: (S, Block) -> S, s: S)
    ensures Folded(f, s, []) == s && Tail([]) == []
  {
  }
}

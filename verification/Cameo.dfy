/** The CAMEO tag of a uImage header (scripts/cameo-tag.py): a byte sum and a CRC-32 that
    cover each other and hold at once. */
module Cameo {
  import opened HashBlocks

  // ----- CRC-32 -----

  const ALL_ONES: Word := 0xffffffff

  /** One bit of the reflected CRC-32 register. */
  function Step(r: Word): Word { if r & 1 == 1 then (r >> 1) ^ 0xedb88320 else r >> 1 }

  function Eight(r: Word): Word { Step(Step(Step(Step(Step(Step(Step(Step(r)))))))) }

  function Feed(r: Word, b: bv8): Word { Eight(r ^ (b as Word)) }

  function Run(r: Word, data: Bytes): Word
    decreases |data|
  {
    if data == [] then r else Run(Feed(r, data[0]), data[1..])
  }

  /** zlib.crc32 */
  function Crc32(data: Bytes): Word { Run(ALL_ONES, data) ^ ALL_ONES }

  lemma {:induction false} RunAppend(r: Word, a: Bytes, b: Bytes)
    ensures Run(r, a + b) == Run(Run(r, a), b)
    decreases |a|
  {
    if a == [] {
      assert a + b == b;
    } else {
      assert (a + b)[0] == a[0] && (a + b)[1..] == a[1..] + b;
      RunAppend(Feed(r, a[0]), a[1..], b);
    }
  }

  lemma RunNine(r: Word, d: Bytes)
    requires |d| == 9
    ensures Run(r, d) == Feed(Feed(Feed(Feed(Feed(Feed(Feed(Feed(Feed(
              r, d[0]), d[1]), d[2]), d[3]), d[4]), d[5]), d[6]), d[7]), d[8])
  {
    hide Feed, Run;
    RunFour(r, d[..4]);
    var r4 := Run(r, d[..4]);
    RunFour(r4, d[4..8]);
    var r8 := Run(r4, d[4..8]);
    RunAppend(r, d[..4], d[4..8]);
    RunAppend(r, d[..8], d[8..]);
    assert d[..4] + d[4..8] == d[..8] && d[..8] + d[8..] == d;
    RunOne(r8, d[8..]);
  }

  lemma RunOne(r: Word, d: Bytes)
    requires |d| == 1
    ensures Run(r, d) == Feed(r, d[0])
  {
    hide Feed;
    assert Run(r, d) == Run(Feed(r, d[0]), d[1..]);
    assert d[1..] == [];
  }

  const DIGITS: Bytes := [0x31, 0x32, 0x33, 0x34, 0x35, 0x36, 0x37, 0x38, 0x39]

  lemma DigitsFed()
    ensures Feed(Feed(Feed(Feed(Feed(Feed(Feed(Feed(Feed(
              0xffffffff, 0x31), 0x32), 0x33), 0x34), 0x35), 0x36), 0x37), 0x38), 0x39) == 0x340bc6d9
  {
  }

  /** The check value of CRC-32: that of the text 123456789. */
  lemma CheckValue()
    ensures Crc32(DIGITS) == 0xcbf43926
  {
    hide Feed, Run;
    RunNine(ALL_ONES, DIGITS);
    DigitsFed();
    assert 0x340bc6d9 ^ ALL_ONES == 0xcbf43926;
  }

  function Little(r: Word): Bytes {
    [(r & 0xff) as bv8, ((r >> 8) & 0xff) as bv8, ((r >> 16) & 0xff) as bv8, ((r >> 24) & 0xff) as bv8]
  }

  /** Feeding a byte clears the top byte of the register iff it is the register's own low
      byte, and then it shifts the register down. */
  lemma FeedExact(r: Word, b: bv8, s: Word)
    requires s == Feed(r, b)
    ensures s < 0x100_0000 <==> (r & 0xff) as bv8 == b
    ensures s < 0x100_0000 ==> s == r >> 8
  {
  }

  lemma LittleBits(r: Word, r1: Word, r2: Word, r3: Word, r4: Word)
    requires r1 == r >> 8 && r2 == r1 >> 8 && r3 == r2 >> 8 && r4 == r3 >> 8
    ensures ((r >> 8) & 0xff) as bv8 == (r1 & 0xff) as bv8
    ensures ((r >> 16) & 0xff) as bv8 == (r2 & 0xff) as bv8
    ensures ((r >> 24) & 0xff) as bv8 == (r3 & 0xff) as bv8
    ensures r4 == 0
  {
  }

  lemma RunFour(r: Word, t: Bytes)
    requires |t| == 4
    ensures Run(r, t) == Feed(Feed(Feed(Feed(r, t[0]), t[1]), t[2]), t[3])
  {
    hide Feed;
    var r1 := Feed(r, t[0]);
    var r2 := Feed(r1, t[1]);
    assert t[1..][1..] == t[2..] && t[2..][1..] == t[3..] && t[3..][1..] == [];
    var r3 := Feed(r2, t[2]);
    assert Run(r, t) == Run(r1, t[1..]) == Run(r2, t[2..]) == Run(r3, t[3..]);
    assert Run(r3, t[3..]) == Run(Feed(r3, t[3]), []);
  }

  /** Four bytes clear the register when they are its own bytes, lowest first. */
  lemma OwnBytesClear(r: Word, t: Bytes)
    requires t == Little(r)
    ensures Run(r, t) == 0
  {
    hide Feed, Run;
    var r1 := r >> 8;
    var r2 := r1 >> 8;
    var r3 := r2 >> 8;
    var r4 := r3 >> 8;
    LittleBits(r, r1, r2, r3, r4);
    RunFour(r, t);
    FeedExact(r, t[0], Feed(r, t[0]));
    FeedExact(r1, t[1], Feed(r1, t[1]));
    FeedExact(r2, t[2], Feed(r2, t[2]));
    FeedExact(r3, t[3], Feed(r3, t[3]));
  }

  /** Only they do. */
  lemma OnlyOwnBytesClear(r: Word, t: Bytes)
    requires |t| == 4 && Run(r, t) == 0
    ensures t == Little(r)
  {
    hide Feed, Run;
    RunFour(r, t);
    var r1 := Feed(r, t[0]);
    var r2 := Feed(r1, t[1]);
    var r3 := Feed(r2, t[2]);
    var r4 := Feed(r3, t[3]);
    FeedExact(r3, t[3], r4);
    SmallBits(r3, r4);
    FeedExact(r2, t[2], r3);
    SmallBits(r2, r3);
    FeedExact(r1, t[1], r2);
    SmallBits(r1, r2);
    FeedExact(r, t[0], r1);
    LittleBits(r, r1, r2, r3, r4);
  }

  /** A register that shifts down to fewer than three bytes had fewer than four. */
  lemma SmallBits(r: Word, s: Word)
    requires s == r >> 8 && s < 0x1_0000
    ensures r < 0x100_0000
    ensures s == 0 ==> r < 0x100
    ensures s < 0x100 ==> r < 0x1_0000
  {
  }

  /** invertcrc */
  function InvertedCrc(data: Bytes): (r: Bytes)
    ensures |r| == 4
  {
    Little(Crc32(data) ^ ALL_ONES)
  }

  lemma DoubleInvert(r: Word)
    ensures (r ^ ALL_ONES) ^ ALL_ONES == r
  {
  }

  lemma ClearIsOnes(r: Word)
    ensures r ^ ALL_ONES == ALL_ONES <==> r == 0
  {
  }

  /** The identity behind the tag: exactly one four-byte suffix turns the CRC into all ones,
      and invertcrc computes it. */
  lemma SuffixMakesOnes(data: Bytes, t: Bytes)
    requires |t| == 4
    ensures Crc32(data + t) == ALL_ONES <==> t == InvertedCrc(data)
  {
    hide Run, Little;
    var r := Run(ALL_ONES, data);
    RunAppend(ALL_ONES, data, t);
    DoubleInvert(r);
    ClearIsOnes(Run(r, t));
    if t == Little(r) { OwnBytesClear(r, t); }
    if Run(r, t) == 0 { OnlyOwnBytesClear(r, t); }
  }

  // ----- the header -----

  function Sum(data: Bytes): nat {
    if data == [] then 0 else data[0] as int + Sum(data[1..])
  }

  /** cameosum */
  function CameoSum(data: Bytes): (r: Bytes)
    ensures |r| == 4
  {
    var n := Sum(data) % 0x1_0000_0000;
    [Octet(n, 0x100_0000), Octet(n, 0x1_0000), Octet(n, 0x100), Octet(n, 1)]
  }

  function Digit256(n: nat, unit: nat): (d: nat)
    requires unit > 0
    ensures d < 256
  {
    n / unit % 256
  }

  /** Dividing in two steps. */
  lemma NextDigit(n: nat, unit: nat, next: nat)
    requires (unit == 1 && next == 0x100) || (unit == 0x100 && next == 0x1_0000)
             || (unit == 0x1_0000 && next == 0x100_0000)
    ensures n / unit == n / next * 256 + Digit256(n, unit)
  {
  }

  lemma FourDigits(n: nat)
    requires n < 0x1_0000_0000
    ensures n == ((Digit256(n, 0x100_0000) * 256 + Digit256(n, 0x1_0000)) * 256 + Digit256(n, 0x100)) * 256
                 + Digit256(n, 1)
  {
    assert n / 0x100_0000 == Digit256(n, 0x100_0000);
    hide Digit256;
    NextDigit(n, 0x1_0000, 0x100_0000);
    NextDigit(n, 0x100, 0x1_0000);
    NextDigit(n, 1, 0x100);
  }

  function Byte(d: nat): bv8
    requires d < 256
  {
    d as bv8
  }

  lemma OctetIs(n: nat, unit: nat)
    requires unit > 0
    ensures Octet(n, unit) == Byte(Digit256(n, unit))
  {
  }

  /** The four bytes are the digits of the sum of all bytes modulo 2^32, the highest first. */
  lemma CameoSumIs(data: Bytes) returns (a: nat, b: nat, c: nat, d: nat)
    ensures a < 256 && b < 256 && c < 256 && d < 256
    ensures CameoSum(data) == [Byte(a), Byte(b), Byte(c), Byte(d)]
    ensures ((a * 256 + b) * 256 + c) * 256 + d == Sum(data) % 0x1_0000_0000
  {
    hide Sum, Digit256, Octet, Byte;
    var n := Sum(data) % 0x1_0000_0000;
    FourDigits(n);
    OctetIs(n, 0x100_0000);
    OctetIs(n, 0x1_0000);
    OctetIs(n, 0x100);
    OctetIs(n, 1);
    a, b, c, d := Digit256(n, 0x100_0000), Digit256(n, 0x1_0000), Digit256(n, 0x100), Digit256(n, 1);
  }

  const CAMEO_TAG: Bytes := [0x43, 0x41, 0x4d, 0x45, 0x4f, 0x54, 0x41, 0x47, 0x00, 0x00, 0x00, 0x01]

  const IMAGE_NAME: Bytes := [0x4f, 0x70, 0x65, 0x6e, 0x57, 0x72, 0x74, 0x00, 0x00, 0x00, 0x00, 0x00]

  const CRC_00: Bytes := [0x00, 0x00, 0x00, 0x00]

  const CRC_FF: Bytes := [0xff, 0xff, 0xff, 0xff]

  /** A uImage header's CRC is taken with its own field zeroed. */
  function HeaderCrc(h: Block): Word { Crc32(h[..4] + CRC_00 + h[8..]) }

  /** Both checksums as the loader verifies them. */
  predicate Accepted(h: Block) {
    && HeaderCrc(h) == BigEndian(h[4..8])
    && h[44..56] == CAMEO_TAG && h[56..60] == CameoSum(h[..56])
  }

  function Put(s: Bytes, at: nat, src: Bytes): (r: Bytes)
    requires at + |src| <= |s|
    ensures |r| == |s|
  {
    s[..at] + src + s[at + |src|..]
  }

  /** Assignment to a slice of the bytearray. */
  method Assign(buf: array<bv8>, at: nat, src: Bytes)
    requires at + |src| <= buf.Length
    modifies buf
    ensures buf[..] == Put(old(buf[..]), at, src)
  {
    for i := 0 to |src|
      invariant forall j :: 0 <= j < at || at + |src| <= j < buf.Length ==> buf[j] == old(buf[j])
      invariant forall j :: 0 <= j < i ==> buf[at + j] == src[j]
    {
      buf[at + i] := src[i];
    }
  }

  /** The header that checksum_header builds from the parts it keeps. */
  function Tagged(magic: Bytes, mid: Bytes): (h: Block)
    requires |magic| == 4 && |mid| == 24
  {
    var summed := magic + CRC_FF + mid + IMAGE_NAME + CAMEO_TAG;
    var zeroed := magic + CRC_00 + mid + IMAGE_NAME + CAMEO_TAG + CameoSum(summed);
    summed + CameoSum(summed) + InvertedCrc(zeroed)
  }

  lemma TaggedAccepted(magic: Bytes, mid: Bytes)
    requires |magic| == 4 && |mid| == 24
    ensures Accepted(Tagged(magic, mid))
    ensures Tagged(magic, mid)[..4] == magic && Tagged(magic, mid)[8..32] == mid
    ensures Tagged(magic, mid)[4..8] == CRC_FF && Tagged(magic, mid)[32..44] == IMAGE_NAME
  {
    hide Crc32, CameoSum, InvertedCrc;
    var h := Tagged(magic, mid);
    var summed := magic + CRC_FF + mid + IMAGE_NAME + CAMEO_TAG;
    var zeroed := magic + CRC_00 + mid + IMAGE_NAME + CAMEO_TAG + CameoSum(summed);
    assert h[..56] == summed && h[56..60] == CameoSum(summed);
    assert h[4..8] == CRC_FF && h[44..56] == CAMEO_TAG;
    assert h[..4] + CRC_00 + h[8..] == zeroed + InvertedCrc(zeroed);
    SuffixMakesOnes(zeroed, InvertedCrc(zeroed));
    OnesField(h[4..8]);
  }

  lemma OnesField(f: Bytes)
    requires f == CRC_FF
    ensures BigEndian(f) == ALL_ONES
  {
  }

  /** A header by its fields. */
  function Header(magic: Bytes, crc: Bytes, mid: Bytes, name: Bytes, sum: Bytes, inv: Bytes): (h: Block)
    requires |magic| == |crc| == |sum| == |inv| == 4 && |mid| == |name| == 24
    ensures h[..56] == magic + crc + mid + name && h[..60] == magic + crc + mid + name + sum
    ensures h[..4] == magic && h[8..32] == mid
  {
    magic + crc + mid + name + sum + inv
  }

  lemma PutField(magic: Bytes, crc: Bytes, mid: Bytes, name: Bytes, sum: Bytes, inv: Bytes, x: Bytes)
    requires |magic| == |crc| == |sum| == |inv| == 4 && |mid| == |name| == 24
    ensures |x| == 24 ==> Put(Header(magic, crc, mid, name, sum, inv), 32, x) == Header(magic, crc, mid, x, sum, inv)
    ensures |x| == 4 ==> Put(Header(magic, crc, mid, name, sum, inv), 4, x) == Header(magic, x, mid, name, sum, inv)
    ensures |x| == 4 ==> Put(Header(magic, crc, mid, name, sum, inv), 56, x) == Header(magic, crc, mid, name, x, inv)
    ensures |x| == 4 ==> Put(Header(magic, crc, mid, name, sum, inv), 60, x) == Header(magic, crc, mid, name, sum, x)
  {
  }

  /** The header before the sum, with the sum, with the CRC field zeroed, and finished. */
  lemma Stages(h: Block, h2: Bytes, h3: Bytes, h4: Bytes, h6: Bytes)
    requires h2 == Put(Put(h, 32, IMAGE_NAME + CAMEO_TAG), 4, CRC_FF)
    requires h3 == Put(h2, 56, CameoSum(h2[..56]))
    requires h4 == Put(h3, 4, CRC_00)
    requires h6 == Put(Put(h4, 60, InvertedCrc(h4[..60])), 4, CRC_FF)
    ensures h6 == Tagged(h[..4], h[8..32])
  {
    hide CameoSum, InvertedCrc, Put, Header;
    var magic, crc, mid, sum, inv := h[..4], h[4..8], h[8..32], h[56..60], h[60..];
    var name := IMAGE_NAME + CAMEO_TAG;
    ByFields(h);
    PutField(magic, crc, mid, h[32..56], sum, inv, name);
    PutField(magic, crc, mid, name, sum, inv, CRC_FF);
    var sum2 := CameoSum(magic + CRC_FF + mid + name);
    PutField(magic, CRC_FF, mid, name, sum, inv, sum2);
    PutField(magic, CRC_FF, mid, name, sum2, inv, CRC_00);
    var inv2 := InvertedCrc(magic + CRC_00 + mid + name + sum2);
    PutField(magic, CRC_00, mid, name, sum2, inv, inv2);
    PutField(magic, CRC_00, mid, name, sum2, inv2, CRC_FF);
    TaggedByFields(magic, mid);
  }

  lemma ByFields(h: Block)
    ensures h == Header(h[..4], h[4..8], h[8..32], h[32..56], h[56..60], h[60..])
  {
  }

  lemma TaggedByFields(magic: Bytes, mid: Bytes)
    requires |magic| == 4 && |mid| == 24
    ensures var name := IMAGE_NAME + CAMEO_TAG;
            var sum := CameoSum(magic + CRC_FF + mid + name);
            Tagged(magic, mid)
            == Header(magic, CRC_FF, mid, name, sum, InvertedCrc(magic + CRC_00 + mid + name + sum))
  {
    hide CameoSum, InvertedCrc;
    var name := IMAGE_NAME + CAMEO_TAG;
    assert magic + CRC_FF + mid + name == magic + CRC_FF + mid + IMAGE_NAME + CAMEO_TAG;
    assert magic + CRC_00 + mid + name == magic + CRC_00 + mid + IMAGE_NAME + CAMEO_TAG;
  }

  /** checksum_header */
  method ChecksumHeader(buf: array<bv8>)
    requires buf.Length == 64
    modifies buf
    ensures Accepted(buf[..])
    ensures buf[..] == Tagged(old(buf[..4]), old(buf[8..32]))
  {
    hide CameoSum, InvertedCrc, Accepted, Put, Tagged;
    ghost var h := buf[..];
    assert h[..4] == buf[..4] && h[8..32] == buf[8..32];
    Assign(buf, 32, IMAGE_NAME + CAMEO_TAG);
    Assign(buf, 4, CRC_FF);
    ghost var h2 := buf[..];
    assert h2[..56] == buf[..56];
    Assign(buf, 56, CameoSum(buf[..56]));
    ghost var h3 := buf[..];
    Assign(buf, 4, CRC_00);
    ghost var h4 := buf[..];
    assert h4[..60] == buf[..60];
    Assign(buf, 60, InvertedCrc(buf[..60]));
    Assign(buf, 4, CRC_FF);
    Stages(h, h2, h3, h4, buf[..]);
    TaggedAccepted(h[..4], h[8..32]);
  }

  /** The second tag: appended to the image, its sum covers everything from `start`. */
  function AppendTag(image: Bytes, start: nat): Bytes
    requires start < |image|
  {
    image + CAMEO_TAG + CameoSum(image[start..] + CAMEO_TAG)
  }

  lemma AppendedTagSums(image: Bytes, start: nat)
    requires start < |image|
    ensures var out := AppendTag(image, start);
            && image <= out && |out| == |image| + 16
            && out[|image|..|image| + 12] == CAMEO_TAG
            && out[|out| - 4..] == CameoSum(out[start..|out| - 4])
  {
    hide CameoSum;
    var out := AppendTag(image, start);
    assert out[start..|out| - 4] == image[start..] + CAMEO_TAG;
  }
}

/** The flash image built by tools/gen_appbin.py, and a boot loader that walks it. */
module Image {
  import opened Bytes

  const TEXT_ADDRESS: nat := 0x40100000
  const CHECKSUM_INIT: byte := 0xEF
  const MAGIC_FLASH: byte := 0xE9
  const MAGIC_IROM: byte := 0xEA
  const LIMIT: nat := 0x1_0000_0000

  // ---------- Words, padding and checksum ----------

  /** struct.pack('<I', x) */
  function Le32(x: nat): (s: seq<byte>)
    requires x < LIMIT
    ensures |s| == 4
  {
    [x % 256, x / 256 % 256, x / 256 / 256 % 256, x / 256 / 256 / 256]
  }

  function Word(s: seq<byte>): nat
    requires |s| >= 4
  {
    s[0] as int + 256 * (s[1] as int + 256 * (s[2] as int + 256 * s[3] as int))
  }

  lemma WordOfLe32(x: nat, rest: seq<byte>)
    requires x < LIMIT
    ensures Word(Le32(x) + rest) == x
  {
    var y := x / 256;
    var z := y / 256;
    assert z == z % 256 + 256 * (z / 256);
    assert y == y % 256 + 256 * z;
    assert x == x % 256 + 256 * y;
  }

  function Zeros(n: nat): (s: seq<byte>)
    ensures |s| == n
  {
    seq(n, _ => 0)
  }

  /** The lowest `n` bits of `a ^ b`. */
  function XorBits(a: nat, b: nat, n: nat): (r: nat)
    ensures r < PowerOf2(n)
  {
    if n == 0 then 0 else 2 * XorBits(a / 2, b / 2, n - 1) + if a % 2 == b % 2 then 0 else 1
  }

  lemma HalveTwice(x: nat, p: nat)
    requires p > 0
    ensures x / (2 * p) == x / 2 / p
  {
    var q, r := x / 2 / p, x / 2 % p;
    assert x / 2 == p * q + r;
    Twice(p, q);
    assert x == 2 * p * q + (2 * r + x % 2);
    Quotient(x, 2 * p, q, 2 * r + x % 2);
  }

  lemma Twice(p: nat, q: nat)
    ensures 2 * (p * q) == 2 * p * q
  {
  }

  lemma Quotient(x: nat, m: nat, q: nat, r: nat)
    requires x == m * q + r && r < m
    ensures x / m == q
  {
    var d := x / m;
    assert x == m * d + x % m;
    if d < q {
      Spread(m, d, q);
    } else if d > q {
      Spread(m, q, d);
    }
  }

  lemma Spread(m: nat, a: nat, b: nat)
    requires a < b
    ensures m * a + m <= m * b
  {
    var k := b - a - 1;
    Distribute(m, a, k);
    NotNegative(m, k);
  }

  lemma Distribute(m: nat, a: nat, k: nat)
    ensures m * (a + k + 1) == m * a + m * k + m
  {
  }

  lemma NotNegative(m: nat, k: nat)
    ensures m * k >= 0
  {
  }

  /** Each bit of the result is set exactly where the bits differ. */
  lemma {:induction false} XorBitsIs(a: nat, b: nat, n: nat, k: nat)
    requires k < n
    ensures Bit(XorBits(a, b, n), k) != (Bit(a, k) == Bit(b, k))
  {
    var x, high := XorBits(a, b, n), XorBits(a / 2, b / 2, n - 1);
    assert x == 2 * high + if a % 2 == b % 2 then 0 else 1;
    assert x / 2 == high;
    if k > 0 {
      XorBitsIs(a / 2, b / 2, n - 1, k - 1);
      HalveTwice(x, PowerOf2(k - 1));
      HalveTwice(a, PowerOf2(k - 1));
      HalveTwice(b, PowerOf2(k - 1));
    }
  }

  /** Bit `k`. */
  predicate Bit(n: nat, k: nat) {
    n / PowerOf2(k) % 2 == 1
  }

  function Xor(a: byte, b: byte): byte {
    ByteSize();
    XorBits(a, b, 8)
  }

  function Fold<A, B>(f: (A, B) -> A, acc: A, s: seq<B>): A {
    if s == [] then acc else f(Fold(f, acc, s[..|s| - 1]), s[|s| - 1])
  }

  lemma {:induction false} FoldConcat<A, B>(f: (A, B) -> A, acc: A, a: seq<B>, b: seq<B>)
    ensures Fold(f, acc, a + b) == Fold(f, Fold(f, acc, a), b)
  {
    if b == [] {
      assert a + b == a;
    } else {
      var n := |b| - 1;
      FoldConcat(f, acc, a, b[..n]);
      assert (a + b)[..|a + b| - 1] == a + b[..n];
    }
  }

  /** `chk_sum` after the bytes of `s`. */
  function XorAll(sum: byte, s: seq<byte>): byte {
    Fold(Xor, sum, s)
  }

  lemma {:induction false} BitsStayApart(a: nat, b: nat, c: nat, n: nat)
    requires a < PowerOf2(n) && b < PowerOf2(n) && a != b
    ensures XorBits(a, c, n) != XorBits(b, c, n) && XorBits(c, a, n) != XorBits(c, b, n)
  {
    if n > 0 && a % 2 == b % 2 {
      assert a / 2 != b / 2;
      BitsStayApart(a / 2, b / 2, c / 2, n - 1);
    }
  }

  lemma XorStaysApart(a: byte, b: byte, c: byte)
    requires a != b
    ensures Xor(a, c) != Xor(b, c) && Xor(c, a) != Xor(c, b)
  {
    ByteSize();
    BitsStayApart(a, b, c, 8);
  }

  lemma SumOfBoth(before: byte, between: byte, a: seq<byte>, b: seq<byte>)
    requires between == XorAll(before, a)
    ensures XorAll(between, b) == XorAll(before, a + b)
  {
    FoldConcat(Xor, before, a, b);
  }

  lemma {:induction false} SumsStayApart(a: byte, b: byte, s: seq<byte>)
    requires a != b
    ensures XorAll(a, s) != XorAll(b, s)
  {
    if s != [] {
      SumsStayApart(a, b, s[..|s| - 1]);
      XorStaysApart(XorAll(a, s[..|s| - 1]), XorAll(b, s[..|s| - 1]), s[|s| - 1]);
    }
  }

  /** One wrong byte never goes unnoticed. */
  lemma OneByteShows(sum: byte, before: seq<byte>, right: byte, wrong: byte, behind: seq<byte>)
    requires right != wrong
    ensures XorAll(sum, before + [right] + behind) != XorAll(sum, before + [wrong] + behind)
  {
    FoldConcat(Xor, sum, before + [right], behind);
    FoldConcat(Xor, sum, before + [wrong], behind);
    SumOfOneMore(sum, before, right);
    SumOfOneMore(sum, before, wrong);
    XorStaysApart(right, wrong, XorAll(sum, before));
    SumsStayApart(XorAll(sum, before + [right]), XorAll(sum, before + [wrong]), behind);
  }

  lemma SumOfOneMore(sum: byte, s: seq<byte>, b: byte)
    ensures XorAll(sum, s + [b]) == Xor(XorAll(sum, s), b)
  {
    assert (s + [b])[..|s|] == s;
  }

  /** Bit `k` of an odd number of them is set. */
  predicate Odd(s: seq<byte>, k: nat) {
    s != [] && (Odd(s[..|s| - 1], k) != Bit(s[|s| - 1], k))
  }

  /** Each bit of the sum is the parity of that bit over all the bytes. */
  lemma {:induction false} SumIsParity(sum: byte, s: seq<byte>, k: nat)
    requires k < 8
    ensures Bit(XorAll(sum, s), k) == (Bit(sum, k) != Odd(s, k))
  {
    if s != [] {
      var n := |s| - 1;
      SumIsParity(sum, s[..n], k);
      XorBitsIs(XorAll(sum, s[..n]), s[n], 8, k);
    }
  }

  // ---------- The layout ----------

  /** `(n + 3) & ~3` */
  function UpTo4(n: nat): (r: nat)
    ensures n <= r < n + 4 && r % 4 == 0
  {
    (n + 3) / 4 * 4
  }

  /** `(n + 15) & ~15` */
  function UpTo16(n: nat): (r: nat)
    ensures n <= r < n + 16 && r % 16 == 0
  {
    (n + 15) / 16 * 16
  }

  /** The room a section takes: the checked ones are aligned to 4, irom0 to 16. */
  function Rounded(n: nat, checked: bool): (r: nat)
    ensures n <= r < n + 16
  {
    if checked then UpTo4(n) else UpTo16(n)
  }

  function Padded(data: seq<byte>, checked: bool): (r: seq<byte>)
    ensures |r| == Rounded(|data|, checked)
  {
    data + Zeros(Rounded(|data|, checked) - |data|)
  }

  /** A section in the image; an empty one leaves nothing behind. */
  function Block(addr: nat, data: seq<byte>, checked: bool): (s: seq<byte>)
    requires addr < LIMIT && |data| < LIMIT - 16
    ensures |s| == if data == [] then 0 else 8 + Rounded(|data|, checked)
  {
    if data == [] then []
    else Le32(addr) + Le32(Rounded(|data|, checked)) + Padded(data, checked)
  }

  /** The arguments and section files; the arguments are already masked to a byte. */
  datatype Build = Build(
    mode: string, flashMode: byte, sizeAndClock: byte, app: byte, entry: nat,
    irom: seq<byte>, text: seq<byte>, data: seq<byte>, rodata: seq<byte>, dataAddr: nat, rodataAddr: nat)

  predicate Packable(b: Build) {
    && b.entry < LIMIT && b.dataAddr < LIMIT && b.rodataAddr < LIMIT
    && |b.irom| < LIMIT - 16 && |b.text| < LIMIT - 16 && |b.data| < LIMIT - 16 && |b.rodata| < LIMIT - 16
  }

  function Header(magic: byte, count: byte, b2: byte, b3: byte, entry: nat): (s: seq<byte>)
    requires entry < LIMIT
    ensures |s| == 8
  {
    [magic, count, b2, b3] + Le32(entry)
  }

  function Lead(b: Build): seq<byte>
    requires Packable(b)
  {
    if b.mode == "2" then Header(MAGIC_IROM, 4, 0, b.app, b.entry) + Block(0, b.irom, false) else []
  }

  function FlashHeader(b: Build): (s: seq<byte>)
    requires Packable(b)
    ensures |s| == 8
  {
    if b.mode == "1" then Header(MAGIC_FLASH, 3, 0, b.app, b.entry)
    else Header(MAGIC_FLASH, 3, b.flashMode, b.sizeAndClock, b.entry)
  }

  function Sections(b: Build): seq<byte>
    requires Packable(b)
  {
    Block(TEXT_ADDRESS, b.text, true) + (Block(b.dataAddr, b.data, true) + Block(b.rodataAddr, b.rodata, true))
  }

  /** Zeros up to the byte before the next multiple of 16. */
  function Filler(size: nat): nat {
    16 - (size + 1) % 16
  }

  function Unsummed(b: Build): seq<byte>
    requires Packable(b)
  {
    Lead(b) + (FlashHeader(b) + Sections(b))
  }

  /** What the checksum covers: the padded sections, without their headers. */
  function Summed(b: Build): seq<byte>
    requires Packable(b)
  {
    Padded(b.text, true) + Padded(b.data, true) + Padded(b.rodata, true)
  }

  /** The image up to and including the checksum. */
  function Loadable(b: Build): seq<byte>
    requires Packable(b)
  {
    var front := Unsummed(b);
    front + Zeros(Filler(|front|)) + [XorAll(CHECKSUM_INIT, Summed(b))]
  }

  function Filled(n: int): seq<byte> {
    seq(if n < 0 then 0 else n, _ => 0xFF)
  }

  /** The word that ends the file, made of the signed CRC-32 of what comes before. */
  function CrcWord(crc: int): seq<byte>
    requires -0x8000_0000 <= crc < 0x8000_0000
  {
    Le32(if crc < 0 then -crc - 1 else crc + 1)
  }

  /** What follows `size` bytes of loadable image: in mode 1 irom0 at 64 KB, and in modes 1 and 2 the CRC word. */
  function Trailer(mode: string, size: nat, irom: seq<byte>, crc: int): seq<byte>
    requires -0x8000_0000 <= crc < 0x8000_0000
  {
    if mode == "1" then Filled(0x10000 - size) + (irom + CrcWord(crc))
    else if mode == "2" then CrcWord(crc)
    else []
  }

  /** The whole file. */
  function Written(b: Build, crc: int): seq<byte>
    requires Packable(b) && -0x8000_0000 <= crc < 0x8000_0000
  {
    Loadable(b) + Trailer(b.mode, |Loadable(b)|, b.irom, crc)
  }

  // ---------- The generator ----------

  class Generator {
    var chkSum: byte
    var blocks: nat
    var flash: seq<byte>

    constructor ()
      ensures chkSum == CHECKSUM_INIT && blocks == 0 && flash == []
    {
      chkSum, blocks, flash := CHECKSUM_INIT, 0, [];
    }

    method Sum(s: seq<byte>)
      modifies this`chkSum
      ensures chkSum == XorAll(old(chkSum), s)
    {
      for loop := 0 to |s|
        invariant chkSum == XorAll(old(chkSum), s[..loop])
      {
        assert s[..loop + 1][..loop] == s[..loop];
        chkSum := Xor(chkSum, s[loop]);
      }
      assert s[..|s|] == s;
    }

    /** The end of combine_bin's work on a section: zeros up to its rounded length. */
    method FillUp(tmpLen: nat, needChk: bool)
      modifies this`flash, this`chkSum
      ensures flash == old(flash) + Zeros(tmpLen)
      ensures chkSum == if needChk then XorAll(old(chkSum), Zeros(tmpLen)) else old(chkSum)
    {
      if tmpLen != 0 {
        flash := flash + Zeros(tmpLen);
        if needChk {
          Sum(Zeros(tmpLen));
        }
      }
    }

    /** The bytes of a section and the zeros behind them. */
    method WriteData(data: seq<byte>, tmpLen: nat, needChk: bool)
      requires tmpLen == Rounded(|data|, needChk)
      modifies this`flash, this`chkSum
      ensures flash == old(flash) + Padded(data, needChk)
      ensures chkSum == if needChk then XorAll(old(chkSum), Padded(data, needChk)) else old(chkSum)
    {
      ghost var pad := Zeros(tmpLen - |data|);
      flash := flash + data;
      if needChk {
        Sum(data);
        ghost var sum := chkSum;
        FillUp(tmpLen - |data|, true);
        SumOfBoth(old(chkSum), sum, data, pad);
      } else {
        FillUp(tmpLen - |data|, false);
      }
      Assoc(old(flash), data, pad);
    }

    /** combine_bin */
    method CombineBin(data: seq<byte>, startOffsetAddr: nat, needChk: bool)
      requires startOffsetAddr < LIMIT && |data| < LIMIT - 16
      modifies this
      ensures flash == old(flash) + Block(startOffsetAddr, data, needChk)
      ensures chkSum == if needChk then XorAll(old(chkSum), Padded(data, true)) else old(chkSum)
      ensures blocks == old(blocks) + if data == [] then 0 else 1
    {
      if |data| != 0 {
        var tmpLen := Rounded(|data|, needChk);
        var head := Le32(startOffsetAddr) + Le32(tmpLen);
        flash := flash + head;
        WriteData(data, tmpLen, needChk);
        blocks := blocks + 1;
        Assoc(old(flash), head, Padded(data, needChk));
      } else {
        assert Padded(data, true) == [];
      }
    }

    /** gen_appbin from the first write on; `crc` is what binascii.crc32 makes of the file so far. */
    method GenAppbin(b: Build, crc: int)
      requires Packable(b) && -0x8000_0000 <= crc < 0x8000_0000
      requires chkSum == CHECKSUM_INIT && blocks == 0 && flash == []
      modifies this
      ensures flash == Written(b, crc)
      ensures blocks == (if b.mode == "2" && b.irom != [] then 1 else 0) + (if b.text != [] then 1 else 0)
                      + (if b.data != [] then 1 else 0) + (if b.rodata != [] then 1 else 0)
    {
      WriteLead(b);
      WriteSections(b);
      WriteChecksum();
      WriteTrailer(b.mode, b.irom, crc);
    }

    method WriteLead(b: Build)
      requires Packable(b) && flash == [] && blocks == 0
      modifies this
      ensures flash == Lead(b) && chkSum == old(chkSum)
      ensures blocks == if b.mode == "2" && b.irom != [] then 1 else 0
    {
      if b.mode == "2" {
        flash := flash + Header(MAGIC_IROM, 4, 0, b.app, b.entry);
        assert flash == Header(MAGIC_IROM, 4, 0, b.app, b.entry);
        CombineBin(b.irom, 0, false);
      }
    }

    method WriteChecksum()
      modifies this`flash
      ensures flash == old(flash) + Zeros(Filler(|old(flash)|)) + [chkSum]
    {
      var sumSize := |flash| + 1;
      sumSize := 16 - sumSize % 16;
      if sumSize != 0 {
        flash := flash + Zeros(sumSize);
      }
      flash := flash + [chkSum];
    }

    method WriteSections(b: Build)
      requires Packable(b) && chkSum == CHECKSUM_INIT && flash == Lead(b)
      modifies this
      ensures flash == Unsummed(b) && chkSum == XorAll(CHECKSUM_INIT, Summed(b))
      ensures blocks == old(blocks) + (if b.text != [] then 1 else 0) + (if b.data != [] then 1 else 0)
                      + (if b.rodata != [] then 1 else 0)
    {
      if b.mode == "1" {
        flash := flash + Header(MAGIC_FLASH, 3, 0, b.app, b.entry);
      } else {
        flash := flash + Header(MAGIC_FLASH, 3, b.flashMode, b.sizeAndClock, b.entry);
      }
      CombineBin(b.text, TEXT_ADDRESS, true);
      CombineBin(b.data, b.dataAddr, true);
      CombineBin(b.rodata, b.rodataAddr, true);
      Gather(Lead(b), FlashHeader(b), Block(TEXT_ADDRESS, b.text, true), Block(b.dataAddr, b.data, true),
             Block(b.rodataAddr, b.rodata, true));
      FoldConcat(Xor, CHECKSUM_INIT, Padded(b.text, true), Padded(b.data, true));
      FoldConcat(Xor, CHECKSUM_INIT, Padded(b.text, true) + Padded(b.data, true), Padded(b.rodata, true));
    }

    method WriteTrailer(mode: string, irom: seq<byte>, crc: int)
      requires -0x8000_0000 <= crc < 0x8000_0000
      modifies this`flash
      ensures flash == old(flash) + Trailer(mode, |old(flash)|, irom, crc)
    {
      if mode == "1" {
        var sumSize := |flash|;
        flash := flash + Filled(0x10000 - sumSize);
        flash := flash + irom;
        Assoc(old(flash), Filled(0x10000 - sumSize), irom);
        Assoc(old(flash), Filled(0x10000 - sumSize) + irom, CrcWord(crc));
        Assoc(Filled(0x10000 - sumSize), irom, CrcWord(crc));
      }
      if mode == "1" || mode == "2" {
        var allBinCrc := crc;
        if allBinCrc < 0 {
          allBinCrc := -allBinCrc - 1;
        } else {
          allBinCrc := allBinCrc + 1;
        }
        flash := flash + Le32(allBinCrc);
      }
    }
  }

  lemma Gather(lead: seq<byte>, h: seq<byte>, a: seq<byte>, b: seq<byte>, c: seq<byte>)
    ensures lead + h + a + b + c == lead + (h + (a + (b + c)))
  {
  }

  // ---------- Alignment ----------

  lemma BlockSize(addr: nat, data: seq<byte>, checked: bool)
    requires addr < LIMIT && |data| < LIMIT - 16
    ensures |Block(addr, data, checked)| % 4 == 0
  {
    if !checked {
      var n := UpTo16(|data|);
      assert n == 4 * (4 * (n / 16));
    }
    AddFours(8, Rounded(|data|, checked));
  }

  lemma AddFours(a: nat, b: nat)
    requires a % 4 == 0 && b % 4 == 0
    ensures (a + b) % 4 == 0
  {
  }

  lemma SectionsEven(b: Build)
    requires Packable(b)
    ensures |Sections(b)| % 4 == 0
  {
    var d, r := |Block(b.dataAddr, b.data, true)|, |Block(b.rodataAddr, b.rodata, true)|;
    BlockSize(TEXT_ADDRESS, b.text, true);
    BlockSize(b.dataAddr, b.data, true);
    BlockSize(b.rodataAddr, b.rodata, true);
    AddFours(d, r);
    AddFours(|Block(TEXT_ADDRESS, b.text, true)|, d + r);
  }

  lemma LeadEven(b: Build)
    requires Packable(b)
    ensures |Lead(b)| % 4 == 0
  {
    BlockSize(0, b.irom, false);
    AddFours(8, |Block(0, b.irom, false)|);
  }

  /** Everything before the checksum's zeros is a multiple of 4, whichever sections are empty. */
  lemma SizesAreEven(b: Build)
    requires Packable(b)
    ensures |Unsummed(b)| % 4 == 0
  {
    SectionsEven(b);
    LeadEven(b);
    AddFours(8, |Sections(b)|);
    AddFours(|Lead(b)|, 8 + |Sections(b)|);
  }

  /** The checksum ends the next line of 16 bytes, so that the loader finds it; it never costs a whole empty line. */
  lemma FillerEndsTheLine(size: nat)
    requires size % 4 == 0
    ensures Filler(size) == 15 - size % 16
    ensures (size + Filler(size) + 1) % 16 == 0
  {
    var q, r := size / 16, size % 16;
    assert size == 16 * q + r;
    assert r % 4 == 0 by { assert size == 4 * (4 * q) + r; }
    assert size + 1 == 16 * q + (r + 1);
    assert (size + 1) % 16 == r + 1;
    assert size + Filler(size) + 1 == 16 * (q + 1);
  }

  lemma LineEnds(front: seq<byte>, sum: byte)
    requires |front| % 4 == 0
    ensures var s := front + Zeros(Filler(|front|)) + [sum];
            |s| % 16 == 0 && |s| <= |front| + 16 && s[|s| - 1] == sum
  {
    FillerEndsTheLine(|front|);
  }

  lemma LoadableIsAligned(b: Build)
    requires Packable(b)
    ensures |Loadable(b)| % 16 == 0
    ensures |Loadable(b)| - |Unsummed(b)| <= 16
    ensures Loadable(b)[|Loadable(b)| - 1] == XorAll(CHECKSUM_INIT, Summed(b))
  {
    SizesAreEven(b);
    LineEnds(Unsummed(b), XorAll(CHECKSUM_INIT, Summed(b)));
  }

  /** The last byte of the loadable image, bit by bit: the parity over 0xEF and the padded sections. */
  lemma ChecksumIsParity(b: Build, k: nat)
    requires Packable(b) && k < 8
    ensures
      var sections := Padded(b.text, true) + Padded(b.data, true) + Padded(b.rodata, true);
      Bit(Loadable(b)[|Loadable(b)| - 1], k) == (Bit(0xEF, k) != Odd(sections, k))
  {
    LoadableIsAligned(b);
    SumIsParity(CHECKSUM_INIT, Summed(b), k);
  }

  /** A section with its header, byte by byte: address, length and data, and zeros up to the length. */
  lemma BlockBytes(addr: nat, data: seq<byte>, checked: bool)
    requires addr < LIMIT && 0 < |data| < LIMIT - 16
    ensures
      var s := Block(addr, data, checked);
      var len := Rounded(|data|, checked);
      && |s| == 8 + len && len % (if checked then 4 else 16) == 0 && |data| <= len < |data| + 16
      && s[0] as int + 0x100 * s[1] as int + 0x1_0000 * s[2] as int + 0x100_0000 * s[3] as int == addr
      && s[4] as int + 0x100 * s[5] as int + 0x1_0000 * s[6] as int + 0x100_0000 * s[7] as int == len
      && s[8..8 + |data|] == data && forall i :: 8 + |data| <= i < |s| ==> s[i] == 0
  {
    LittleEndian(addr);
    LittleEndian(Rounded(|data|, checked));
  }

  lemma LittleEndian(x: nat)
    requires x < LIMIT
    ensures
      var s := Le32(x);
      s[0] as int + 0x100 * s[1] as int + 0x1_0000 * s[2] as int + 0x100_0000 * s[3] as int == x
  {
    WordOfLe32(x, []);
    assert Le32(x) + [] == Le32(x);
  }

  /** What the first bytes of the two headers are, mode by mode; the entry address follows in each. */
  lemma HeaderBytes(b: Build)
    requires Packable(b)
    ensures FlashHeader(b)[..4] == if b.mode == "1" then [0xE9, 3, 0, b.app] else [0xE9, 3, b.flashMode, b.sizeAndClock]
    ensures b.mode == "2" ==> |Lead(b)| >= 8 && Lead(b)[..4] == [0xEA, 4, 0, b.app]
    ensures b.mode != "2" ==> Lead(b) == []
    ensures
      var s := FlashHeader(b);
      s[4] as int + 0x100 * s[5] as int + 0x1_0000 * s[6] as int + 0x100_0000 * s[7] as int == b.entry
    ensures b.mode == "2" ==>
      var s := Lead(b);
      s[4] as int + 0x100 * s[5] as int + 0x1_0000 * s[6] as int + 0x100_0000 * s[7] as int == b.entry
  {
    LittleEndian(b.entry);
  }

  /** The word behind a file in modes 1 and 2: the CRC plus one, or its complement when it is negative. */
  lemma CrcWordIs(crc: int)
    requires -0x8000_0000 <= crc < 0x8000_0000
    ensures
      var s := CrcWord(crc);
      var word := s[0] as int + 0x100 * s[1] as int + 0x1_0000 * s[2] as int + 0x100_0000 * s[3] as int;
      |s| == 4 && if crc >= 0 then word - crc == 1 else word + crc == -1
  {
    LittleEndian(if crc < 0 then -crc - 1 else crc + 1);
  }

  /** How the file goes on behind the checksum, mode by mode. */
  lemma FileEnds(b: Build, crc: int)
    requires Packable(b) && -0x8000_0000 <= crc < 0x8000_0000
    ensures
      var file, front := Written(b, crc), Loadable(b);
      if b.mode == "1" then
        var start := if |front| <= 0x10000 then 0x10000 else |front|;
        && |file| == start + |b.irom| + 4 && file[..|front|] == front
        && (forall i :: |front| <= i < start ==> file[i] == 0xFF)
        && file[start..start + |b.irom|] == b.irom && file[start + |b.irom|..] == CrcWord(crc)
      else if b.mode == "2" then file == front + CrcWord(crc)
      else file == front
  {
    var front, n := Loadable(b), 0x10000 - |Loadable(b)|;
    if b.mode == "1" {
      FourParts(front, Filled(n), b.irom, CrcWord(crc));
    } else {
      assert front + [] == front;
    }
  }

  lemma FourParts(a: seq<byte>, b: seq<byte>, c: seq<byte>, d: seq<byte>)
    ensures
      var s := a + (b + (c + d));
      var start := |a| + |b|;
      && s[..|a|] == a && (forall i :: |a| <= i < start ==> s[i] == b[i - |a|])
      && s[start..start + |c|] == c && s[start + |c|..] == d
  {
  }

  /** In mode 1 irom0 starts at 64 KB when the loadable part leaves room, and right behind it otherwise. */
  lemma IromAt64K(front: seq<byte>, irom: seq<byte>, crc: int)
    requires -0x8000_0000 <= crc < 0x8000_0000
    ensures var file := front + Trailer("1", |front|, irom, crc);
            var start := if |front| <= 0x10000 then 0x10000 else |front|;
            |file| >= start && file[start..] == irom + CrcWord(crc)
  {
    var gap := Filled(0x10000 - |front|);
    Assoc(front, gap, irom + CrcWord(crc));
  }
}

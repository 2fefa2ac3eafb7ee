/** A boot loader that walks the flash image of Image.dfy, and exactly when it finds what was built. */
module Loader {
  import opened Bytes
  import opened Image
  import opened Records

  datatype Segment = Segment(addr: nat, data: seq<byte>)

  datatype Loaded = Loaded(entry: nat, segments: seq<Segment>)

  /** A section: address, length, data; and what follows it. */
  function TakeBlock(s: seq<byte>): Option<(Segment, seq<byte>)> {
    if |s| < 8 then None
    else
      var len := Word(s[4..]);
      if |s| < 8 + len then None else Some((Segment(Word(s), s[8..8 + len]), s[8 + len..]))
  }

  function Gathered(segments: seq<Segment>): seq<byte> {
    if segments == [] then [] else segments[0].data + Gathered(segments[1..])
  }

  /** From file offset `end` on, where the sections stop, `rest` has the checksum of `summed` at the end of the line. */
  predicate ChecksumAt(end: nat, summed: seq<byte>, rest: seq<byte>) {
    var gap := 15 - end % 16;
    |rest| > gap && rest[gap] == XorAll(CHECKSUM_INIT, summed)
  }

  /** Sections taken from a file of `size` bytes are accepted if the checksum behind them agrees. */
  function Accept(entry: nat, taken: Option<(seq<Segment>, seq<byte>)>, size: nat): Option<Loaded> {
    match taken
    case None => None
    case Some((segments, rest)) =>
      if |rest| <= size && ChecksumAt(size - |rest|, Gathered(segments), rest) then Some(Loaded(entry, segments))
      else None
  }

  /** The header at the front of `s`, its sections and their checksum, in a file of `size` bytes that ends with `s`. */
  function LoadFlash(s: seq<byte>, size: nat): Option<Loaded> {
    if |s| < 8 || s[0] != MAGIC_FLASH then None
    else Accept(Word(s[4..]), TakeMany(TakeBlock, s[8..], s[1]), size)
  }

  /** The loader; an irom header and its block are passed over. */
  function Load(image: seq<byte>): Option<Loaded> {
    if |image| < 8 then None
    else if image[0] == MAGIC_IROM then
      match TakeBlock(image[8..])
      case None => None
      case Some((_, rest)) => LoadFlash(rest, |image|)
    else LoadFlash(image, |image|)
  }

  // ---------- One section ----------

  predicate Fits(x: Segment) {
    x.addr < LIMIT && |x.data| < LIMIT
  }

  /** It can be written, and is not empty. */
  predicate Real(x: Segment) {
    Fits(x) && x.data != []
  }

  /** A section with its header. */
  function Raw(x: Segment): (s: seq<byte>)
    ensures |s| == if Fits(x) then 8 + |x.data| else 0
  {
    if Fits(x) then Le32(x.addr) + Le32(|x.data|) + x.data else []
  }

  /** A section as it is written; an empty one leaves nothing behind. */
  function Encoded(x: Segment): (s: seq<byte>)
    ensures |s| == if Real(x) then 8 + |x.data| else 0
  {
    if Real(x) then Raw(x) else []
  }

  lemma TakeBlockBack(x: Segment, rest: seq<byte>)
    requires Fits(x)
    ensures TakeBlock(Raw(x) + rest) == Some((x, rest))
  {
    var len := |x.data|;
    var s := Raw(x) + rest;
    var tail := Le32(len) + (x.data + rest);
    assert s == Le32(x.addr) + tail;
    WordOfLe32(x.addr, tail);
    assert s[4..] == tail;
    WordOfLe32(len, x.data + rest);
    assert s[8..8 + len] == x.data;
    assert s[8 + len..] == rest;
  }

  lemma Le32OfWord(s: seq<byte>)
    requires |s| >= 4
    ensures Word(s) < LIMIT && Le32(Word(s)) == s[..4]
  {
    var y := s[1] as int + 256 * (s[2] as int + 256 * s[3] as int);
    var z := s[2] as int + 256 * s[3] as int;
    assert Word(s) == s[0] as int + 256 * y && Word(s) / 256 == y && Word(s) % 256 == s[0];
    assert y / 256 == z && y % 256 == s[1];
    assert z / 256 == s[3] as int && z % 256 == s[2];
  }

  /** What was taken was there, in just this form. */
  lemma TakenWasThere(s: seq<byte>, x: Segment, rest: seq<byte>)
    requires TakeBlock(s) == Some((x, rest)) && Fits(x)
    ensures s == Raw(x) + rest
  {
    var len := |x.data|;
    Le32OfWord(s);
    Le32OfWord(s[4..]);
    assert s[..4] == Le32(x.addr);
    assert s[4..][..4] == Le32(len);
    assert s == s[..4] + s[4..][..4] + s[8..8 + len] + s[8 + len..];
  }

  /** Sections come back as they were written, and are taken only from where they were. */
  lemma BlocksInverse()
    ensures Inverse(TakeBlock, Encoded, Real) && Exact(TakeBlock, Encoded, Real)
    ensures Inverse(TakeBlock, Raw, Fits) && Exact(TakeBlock, Raw, Fits)
  {
    forall x, rest | Fits(x)
      ensures TakeBlock(Raw(x) + rest) == Some((x, rest))
    {
      TakeBlockBack(x, rest);
    }
    forall s, x, rest | Fits(x) && TakeBlock(s) == Some((x, rest))
      ensures s == Raw(x) + rest
    {
      TakenWasThere(s, x, rest);
    }
  }

  /** What can be written. */
  predicate Writable(xs: seq<Segment>) {
    forall i :: 0 <= i < |xs| ==> Fits(xs[i])
  }

  lemma {:induction false} EncodedLength(xs: seq<Segment>)
    requires Writable(xs)
    ensures |WriteMany(Encoded, xs)| == 8 * Present(Real, xs) + |Gathered(xs)|
  {
    if xs != [] {
      EncodedLength(xs[1..]);
    }
  }

  lemma {:induction false} TakenLength(s: seq<byte>, n: nat)
    ensures match TakeMany(TakeBlock, s, n)
            case None => true
            case Some((segments, end)) => |segments| == n && |s| == 8 * n + |Gathered(segments)| + |end|
    decreases n
  {
    if n > 0 && TakeMany(TakeBlock, s, n).Some? {
      var (first, rest) := TakeBlock(s).value;
      TakenLength(rest, n - 1);
      var (more, _) := TakeMany(TakeBlock, rest, n - 1).value;
      assert ([first] + more)[1..] == more;
    }
  }

  // ---------- Sections and the line that ends them ----------

  function Line(size: nat, sum: byte, after: seq<byte>): (r: seq<byte>)
    ensures |r| == Filler(size) + 1 + |after|
  {
    Zeros(Filler(size)) + [sum] + after
  }

  /** Behind sections that end at `size`: zeros, their checksum, and whatever is written after that. */
  function Rest(xs: seq<Segment>, size: nat, after: seq<byte>): (r: seq<byte>)
    ensures |r| == Filler(size) + 1 + |after|
  {
    Line(size, XorAll(CHECKSUM_INIT, Gathered(xs)), after)
  }

  /** What the loader makes of these sections and the line behind them. */
  function Outcome(entry: nat, xs: seq<Segment>, size: nat, after: seq<byte>): Option<Loaded> {
    var rest := Rest(xs, size, after);
    Accept(entry, TakeMany(TakeBlock, WriteMany(Encoded, xs) + rest, |xs|), size + |rest|)
  }

  predicate Complete(xs: seq<Segment>) {
    Present(Real, xs) == |xs|
  }

  /** The last section is empty, belongs at address 0, and the zeros behind it are enough to be read as just that. */
  predicate Spared(xs: seq<Segment>, size: nat) {
    && |xs| > 0 && Complete(xs[..|xs| - 1])
    && xs[|xs| - 1] == Segment(0, []) && size % 16 < 8
  }

  /** From offset `size` on, `rest` starts with these headers, and then has the checksum at the end of its line. */
  predicate HeadersThenSum(headers: seq<byte>, size: nat, summed: seq<byte>, rest: seq<byte>) {
    headers <= rest && ChecksumAt(size + |headers|, summed, rest[|headers|..])
  }

  /**
   * The empty sections are the last, what is behind the others reads as their headers, and what is behind that has
   * the checksum at the end of its line. Without empty sections this says nothing (CompleteStands).
   */
  predicate StandsIn(xs: seq<Segment>, size: nat, after: seq<byte>) {
    && InFront(Real, xs)
    && HeadersThenSum(WriteMany(Raw, xs[Present(Real, xs)..]), size, Gathered(xs), Rest(xs, size, after))
  }

  /** When all sections are taken, the empty ones included, leaving `end`. */
  lemma SectionsTakenExactly(xs: seq<Segment>, rest: seq<byte>, end: seq<byte>)
    requires Writable(xs)
    ensures TakeMany(TakeBlock, WriteMany(Encoded, xs) + rest, |xs|) == Some((xs, end))
       <==> InFront(Real, xs) && rest == WriteMany(Raw, xs[Present(Real, xs)..]) + end
  {
    BlocksInverse();
    TakenFrom(TakeBlock, Encoded, Real, Raw, Fits, xs, rest, end);
  }

  lemma AcceptedIsTaken(entry: nat, taken: Option<(seq<Segment>, seq<byte>)>, size: nat, xs: seq<Segment>)
    requires Accept(entry, taken, size) == Some(Loaded(entry, xs))
    ensures taken.Some? && taken == Some((xs, taken.value.1))
  {
  }

  lemma AcceptIs(entry: nat, xs: seq<Segment>, at: nat, end: seq<byte>, file: nat)
    requires file == at + |end|
    ensures Accept(entry, Some((xs, end)), file) == Some(Loaded(entry, xs)) <==> ChecksumAt(at, Gathered(xs), end)
  {
    assert file - |end| == at;
  }

  lemma AcceptBehind(
    entry: nat, xs: seq<Segment>, headers: seq<byte>, size: nat, rest: seq<byte>, end: seq<byte>)
    requires rest == headers + end
    ensures Accept(entry, Some((xs, end)), size + |rest|) == Some(Loaded(entry, xs))
       <==> HeadersThenSum(headers, size, Gathered(xs), rest)
  {
    assert rest[|headers|..] == end;
    AcceptIs(entry, xs, size + |headers|, end, size + |rest|);
  }

  lemma AcceptedFrom(
    entry: nat, xs: seq<Segment>, headers: seq<byte>, size: nat, rest: seq<byte>,
    taken: Option<(seq<Segment>, seq<byte>)>)
    requires Writable(xs) && headers == WriteMany(Raw, xs[Present(Real, xs)..])
    requires taken == TakeMany(TakeBlock, WriteMany(Encoded, xs) + rest, |xs|)
    requires InFront(Real, xs) && headers <= rest
    ensures Accept(entry, taken, size + |rest|) == Some(Loaded(entry, xs))
       <==> HeadersThenSum(headers, size, Gathered(xs), rest)
  {
    var end := rest[|headers|..];
    assert rest == headers + end;
    SectionsTakenExactly(xs, rest, end);
    AcceptBehind(entry, xs, headers, size, rest, end);
  }

  /** Exactly when the loader finds these sections, whatever is written behind the checksum. */
  lemma OutcomeIs(entry: nat, xs: seq<Segment>, size: nat, after: seq<byte>)
    requires Writable(xs)
    ensures Outcome(entry, xs, size, after) == Some(Loaded(entry, xs)) <==> StandsIn(xs, size, after)
  {
    var headers, rest := WriteMany(Raw, xs[Present(Real, xs)..]), Rest(xs, size, after);
    var taken := TakeMany(TakeBlock, WriteMany(Encoded, xs) + rest, |xs|);
    if InFront(Real, xs) && headers <= rest {
      AcceptedFrom(entry, xs, headers, size, rest, taken);
    } else if Outcome(entry, xs, size, after) == Some(Loaded(entry, xs)) {
      AcceptedIsTaken(entry, taken, size + |rest|, xs);
      SectionsTakenExactly(xs, rest, taken.value.1);
    }
  }

  // ---------- The condition for what is written behind the checksum ----------

  lemma CompleteStands(xs: seq<Segment>, size: nat, after: seq<byte>)
    requires Complete(xs) && size % 4 == 0
    ensures StandsIn(xs, size, after)
  {
    var rest := Rest(xs, size, after);
    assert xs[..|xs|] == xs && xs[|xs|..] == [];
    assert rest[0..] == rest;
    FillerEndsTheLine(size);
  }

  lemma OneHeader(x: Segment)
    requires Fits(x) && x.data == []
    ensures WriteMany(Raw, [x]) == Le32(x.addr) + Zeros(4)
  {
    assert [x][1..] == [];
    assert Le32(0) == Zeros(4);
    assert WriteMany(Raw, [x]) == Le32(x.addr) + Le32(0) + [] + [];
  }

  lemma ZeroAddress(addr: nat)
    requires addr < LIMIT && Le32(addr) == Zeros(4)
    ensures addr == 0
  {
    WordOfLe32(addr, []);
    assert Le32(addr) + [] == Le32(addr);
  }

  /** The zeros of the line, where there are at least eight, read as the header of an empty section at address 0. */
  lemma ZerosAsHeader(size: nat, sum: byte, after: seq<byte>, addr: nat)
    requires Filler(size) >= 8 && addr < LIMIT
    ensures Le32(addr) + Zeros(4) <= Line(size, sum, after) <==> addr == 0
  {
    var r, h := Line(size, sum, after), Le32(addr) + Zeros(4);
    assert r[..8] == Zeros(8) == Zeros(4) + Zeros(4);
    assert Le32(0) == Zeros(4);
    if h <= r {
      assert h == r[..8];
      assert h[..4] == Le32(addr) && Zeros(8)[..4] == Zeros(4);
      ZeroAddress(addr);
    } else if addr == 0 {
      assert h == r[..8];
    }
  }

  lemma ShiftedLine(size: nat)
    requires size % 4 == 0
    ensures size % 16 < 8 <==> Filler(size) >= 8
    ensures size % 16 < 8 ==> (size + 8) % 16 == size % 16 + 8
  {
    FillerEndsTheLine(size);
  }

  /** Where the zeros make up a whole empty section, the checksum is found all the same. */
  lemma LineShifted(size: nat, summed: seq<byte>, after: seq<byte>)
    requires size % 4 == 0 && size % 16 < 8
    ensures
      var r := Line(size, XorAll(CHECKSUM_INIT, summed), after);
      |r| >= 8 && ChecksumAt(size + 8, summed, r[8..])
  {
    var sum := XorAll(CHECKSUM_INIT, summed);
    FillerEndsTheLine(size);
    ShiftedLine(size);
    assert Line(size, sum, after)[Filler(size)] == sum;
  }

  lemma SparedStands(xs: seq<Segment>, size: nat, after: seq<byte>)
    requires Spared(xs, size) && size % 4 == 0
    ensures StandsIn(xs, size, after)
  {
    var last := xs[|xs| - 1];
    LastMissing(Real, xs);
    OneHeader(last);
    ShiftedLine(size);
    ZerosAsHeader(size, XorAll(CHECKSUM_INIT, Gathered(xs)), after, 0);
    LineShifted(size, Gathered(xs), after);
  }

  lemma PlainStands(xs: seq<Segment>, size: nat, after: seq<byte>)
    requires size % 4 == 0
    ensures Complete(xs) || Spared(xs, size) ==> StandsIn(xs, size, after)
  {
    if Complete(xs) {
      CompleteStands(xs, size, after);
    } else if Spared(xs, size) {
      SparedStands(xs, size, after);
    }
  }

  /** With just one section missing, and zeros enough, only `Spared` will do. */
  lemma OneMissing(xs: seq<Segment>, size: nat, after: seq<byte>)
    requires Writable(xs) && StandsIn(xs, size, after) && size % 4 == 0
    requires Present(Real, xs) + 1 == |xs| && Filler(size) >= 8
    ensures Spared(xs, size)
  {
    var n := |xs| - 1;
    KeptInFront(Real, xs);
    NoneThere(Real, xs[n..]);
    assert xs[n..] == [xs[n]];
    OneHeader(xs[n]);
    ShiftedLine(size);
    ZerosAsHeader(size, XorAll(CHECKSUM_INIT, Gathered(xs)), after, xs[n].addr);
  }

  lemma ModSixteen(lines: nat, k: nat)
    requires lines % 16 == 0 && k < 16
    ensures (lines + k) % 16 == k
  {
    assert lines + k == 16 * (lines / 16) + k;
  }

  lemma EndOfLine(size: nat, n: nat, more: nat)
    requires size % 4 == 0 && more < 16
    requires Filler(size) + 1 + more > n + (15 - (size + n) % 16)
    ensures n <= Filler(size)
  {
    var lines, over := size + Filler(size) + 1, n - (Filler(size) + 1);
    FillerEndsTheLine(size);
    if 0 <= over < 16 {
      ModSixteen(lines, over);
    }
  }

  lemma HeadersInLine(headers: seq<byte>, size: nat, summed: seq<byte>, rest: seq<byte>, more: nat)
    requires HeadersThenSum(headers, size, summed, rest) && size % 4 == 0
    requires |rest| == Filler(size) + 1 + more && more < 16
    ensures |headers| <= Filler(size)
  {
    EndOfLine(size, |headers|, more);
  }

  lemma {:induction false} HeadersLength(xs: seq<Segment>)
    requires Writable(xs) && Present(Real, xs) == 0
    ensures |WriteMany(Raw, xs)| == 8 * |xs|
  {
    if xs != [] {
      HeadersLength(xs[1..]);
    }
  }

  /** The headers of the empty sections at the end. */
  lemma MissingHeaders(xs: seq<Segment>, headers: seq<byte>)
    requires Writable(xs) && InFront(Real, xs) && headers == WriteMany(Raw, xs[Present(Real, xs)..])
    ensures |headers| == 8 * (|xs| - Present(Real, xs))
  {
    KeptInFront(Real, xs);
    HeadersLength(xs[Present(Real, xs)..]);
  }

  /** With less than a line behind the checksum, there is nothing else that could stand in. */
  lemma ShortTrailer(xs: seq<Segment>, size: nat, after: seq<byte>)
    requires Writable(xs) && size % 4 == 0 && |after| < 16
    ensures StandsIn(xs, size, after) <==> Complete(xs) || Spared(xs, size)
  {
    PlainStands(xs, size, after);
    if StandsIn(xs, size, after) && !Complete(xs) {
      var headers := WriteMany(Raw, xs[Present(Real, xs)..]);
      MissingHeaders(xs, headers);
      HeadersInLine(headers, size, Gathered(xs), Rest(xs, size, after), |after|);
      FillerEndsTheLine(size);
      OneMissing(xs, size, after);
    }
  }

  lemma {:induction false} HeadersHaveZeros(xs: seq<Segment>, i: nat)
    requires Writable(xs) && Present(Real, xs) == 0 && i < |xs|
    ensures |WriteMany(Raw, xs)| == 8 * |xs| && WriteMany(Raw, xs)[8 * i + 7] == 0
  {
    HeadersLength(xs);
    HeadersLength(xs[1..]);
    NoneThere(Real, xs);
    assert Raw(xs[0]) == Le32(xs[0].addr) + Le32(0) + [];
    assert WriteMany(Raw, xs) == Raw(xs[0]) + WriteMany(Raw, xs[1..]);
    if i > 0 {
      HeadersHaveZeros(xs[1..], i - 1);
      assert WriteMany(Raw, xs)[8 * i + 7] == WriteMany(Raw, xs[1..])[8 * (i - 1) + 7];
    }
  }

  lemma FillByte(size: nat, sum: byte, after: seq<byte>, j: nat)
    requires |after| >= 16 && forall k :: 0 <= k < 16 ==> after[k] == 0xFF
    requires j <= Filler(size) + 16
    ensures Line(size, sum, after)[j] == if j < Filler(size) then 0 else if j == Filler(size) then sum else 0xFF
  {
    var f := Filler(size);
    if j > f {
      assert Line(size, sum, after)[j] == after[j - f - 1];
    }
  }

  lemma HeaderByte(missing: seq<Segment>, r: seq<byte>, i: nat)
    requires Writable(missing) && Present(Real, missing) == 0 && i < |missing|
    requires WriteMany(Raw, missing) <= r
    ensures 8 * i + 7 < |r| && r[8 * i + 7] == 0
  {
    HeadersHaveZeros(missing, i);
  }

  /** Headers that reach past the checksum into the fill would have a byte of it where they have a zero. */
  lemma HeadersStop(missing: seq<Segment>, size: nat, sum: byte, after: seq<byte>)
    requires Writable(missing) && Present(Real, missing) == 0 && missing != []
    requires |after| >= 16 && forall k :: 0 <= k < 16 ==> after[k] == 0xFF
    requires WriteMany(Raw, missing) <= Line(size, sum, after)
    ensures 8 * |missing| <= Filler(size) + 1
    ensures 8 * |missing| == Filler(size) + 1 ==> sum == 0
  {
    var r, f, n := Line(size, sum, after), Filler(size), 8 * |missing|;
    if n > f + 1 {
      var i := (f + 1) / 8;
      assert f < 8 * i + 7 <= f + 8 && i < |missing|;
      HeaderByte(missing, r, i);
      FillByte(size, sum, after, 8 * i + 7);
    } else if n == f + 1 {
      HeaderByte(missing, r, |missing| - 1);
      FillByte(size, sum, after, f);
    }
  }

  /** Headers that end on a checksum of 0 leave a byte of the fill where the checksum should be. */
  lemma EndsOnTheFill(n: nat, size: nat, summed: seq<byte>, after: seq<byte>)
    requires size % 4 == 0 && n == Filler(size) + 1
    requires |after| >= 16 && forall k :: 0 <= k < 16 ==> after[k] == 0xFF
    ensures XorAll(CHECKSUM_INIT, summed) == 0
        ==> !ChecksumAt(size + n, summed, Line(size, XorAll(CHECKSUM_INIT, summed), after)[n..])
  {
    var sum := XorAll(CHECKSUM_INIT, summed);
    FillerEndsTheLine(size);
    FillByte(size, sum, after, Filler(size) + 16);
    assert Line(size, sum, after)[n..][15] == 0xFF;
  }

  lemma HeadersBeforeFill(missing: seq<Segment>, size: nat, summed: seq<byte>, after: seq<byte>)
    requires Writable(missing) && Present(Real, missing) == 0 && size % 4 == 0
    requires HeadersThenSum(WriteMany(Raw, missing), size, summed, Line(size, XorAll(CHECKSUM_INIT, summed), after))
    requires |after| >= 16 && forall k :: 0 <= k < 16 ==> after[k] == 0xFF
    ensures 8 * |missing| <= Filler(size)
  {
    EndsOnTheFill(Filler(size) + 1, size, summed, after);
    HeadersLength(missing);
    if missing != [] {
      HeadersStop(missing, size, XorAll(CHECKSUM_INIT, summed), after);
    }
  }

  /** Nor can a fill of at least a line stand in for anything. */
  lemma FilledTrailer(xs: seq<Segment>, size: nat, after: seq<byte>)
    requires Writable(xs) && size % 4 == 0
    requires |after| >= 16 && forall k :: 0 <= k < 16 ==> after[k] == 0xFF
    ensures StandsIn(xs, size, after) <==> Complete(xs) || Spared(xs, size)
  {
    PlainStands(xs, size, after);
    if StandsIn(xs, size, after) && !Complete(xs) {
      KeptInFront(Real, xs);
      HeadersBeforeFill(xs[Present(Real, xs)..], size, Gathered(xs), after);
      FillerEndsTheLine(size);
      OneMissing(xs, size, after);
    }
  }

  // ---------- The image that was built ----------

  /** What the loader should find: the sections, zero-padded to 4. */
  function Segments(b: Build): seq<Segment> {
    [Segment(TEXT_ADDRESS, Padded(b.text, true)), Segment(b.dataAddr, Padded(b.data, true)),
     Segment(b.rodataAddr, Padded(b.rodata, true))]
  }

  lemma BlockIsEncoded(addr: nat, data: seq<byte>)
    requires addr < LIMIT && |data| < LIMIT - 16
    ensures Block(addr, data, true) == Encoded(Segment(addr, Padded(data, true)))
    ensures Real(Segment(addr, Padded(data, true))) <==> data != []
    ensures data == [] ==> Padded(data, true) == []
  {
    assert |Padded(data, true)| == UpTo4(|data|);
  }

  lemma Three(x: Segment, y: Segment, z: Segment)
    ensures WriteMany(Encoded, [x, y, z]) == Encoded(x) + (Encoded(y) + Encoded(z))
    ensures Gathered([x, y, z]) == x.data + y.data + z.data
    ensures Present(Real, [x, y, z])
         == (if Real(x) then 1 else 0) + (if Real(y) then 1 else 0) + (if Real(z) then 1 else 0)
  {
    assert [x, y, z][1..] == [y, z];
    assert [y, z][1..] == [z];
    assert [z][1..] == [];
    assert WriteMany(Encoded, [z]) == Encoded(z) + [] == Encoded(z);
    assert WriteMany(Encoded, [y, z]) == Encoded(y) + Encoded(z);
    assert Gathered([z]) == z.data + [] == z.data;
    assert Gathered([y, z]) == y.data + z.data;
    assert Present(Real, [z]) == if Real(z) then 1 else 0;
    Assoc(x.data, y.data, z.data);
  }

  lemma SectionsAreEncoded(b: Build)
    requires Packable(b)
    ensures Sections(b) == WriteMany(Encoded, Segments(b))
    ensures Summed(b) == Gathered(Segments(b))
    ensures Complete(Segments(b)) <==> b.text != [] && b.data != [] && b.rodata != []
    ensures Writable(Segments(b))
  {
    var xs := Segments(b);
    BlockIsEncoded(TEXT_ADDRESS, b.text);
    BlockIsEncoded(b.dataAddr, b.data);
    BlockIsEncoded(b.rodataAddr, b.rodata);
    Three(xs[0], xs[1], xs[2]);
  }

  lemma AllTaken(xs: seq<Segment>)
    ensures TakeMany(TakeBlock, WriteMany(Encoded, xs), |xs|).Some? <==> Complete(xs)
  {
    BlocksInverse();
    TakeAtMost(TakeBlock, Encoded, Real, xs, |xs|);
  }

  /** The header promises three sections, and the image has them if and only if none is empty. */
  lemma SectionsTaken(b: Build)
    requires Packable(b)
    ensures FlashHeader(b)[1] == |Segments(b)|
    ensures TakeMany(TakeBlock, Sections(b), |Segments(b)|).Some? <==> b.text != [] && b.data != [] && b.rodata != []
  {
    SectionsAreEncoded(b);
    AllTaken(Segments(b));
  }

  /** Sections that are not empty come back, with whatever follows them. */
  lemma SectionsBack(b: Build, rest: seq<byte>)
    requires Packable(b) && b.text != [] && b.data != [] && b.rodata != []
    ensures TakeMany(TakeBlock, Sections(b) + rest, |Segments(b)|) == Some((Segments(b), rest))
  {
    BlocksInverse();
    SectionsAreEncoded(b);
    TakeAllBack(TakeBlock, Encoded, Real, Segments(b), rest);
  }

  /** If just one section is empty, whichever it is, the loader takes those behind it in its place. */
  lemma EmptySectionShifts(b: Build, i: nat, rest: seq<byte>)
    requires Packable(b) && i < 3 && Segments(b)[i].data == []
    requires forall k :: 0 <= k < 3 && k != i ==> Segments(b)[k].data != []
    ensures
      var others := Segments(b)[..i] + Segments(b)[i + 1..];
      TakeMany(TakeBlock, Sections(b) + rest, |others|) == Some((others, rest))
  {
    SectionsAreEncoded(b);
    OthersMoveUp(Segments(b), i, rest);
  }

  lemma OthersThere(xs: seq<Segment>, i: nat)
    requires i < |xs| && forall k :: 0 <= k < |xs| && k != i ==> Real(xs[k])
    ensures Complete(xs[..i] + xs[i + 1..])
  {
    AllThere(Real, xs[..i]);
    AllThere(Real, xs[i + 1..]);
    KeptSplits(Real, xs[..i], xs[i + 1..]);
  }

  lemma OthersMoveUp(xs: seq<Segment>, i: nat, rest: seq<byte>)
    requires i < |xs| && !Real(xs[i])
    requires forall k :: 0 <= k < |xs| && k != i ==> Real(xs[k])
    ensures
      var others := xs[..i] + xs[i + 1..];
      TakeMany(TakeBlock, WriteMany(Encoded, xs) + rest, |others|) == Some((others, rest))
  {
    var others := xs[..i] + xs[i + 1..];
    BlocksInverse();
    Without(TakeBlock, Encoded, Real, xs, i);
    OthersThere(xs, i);
    TakeAllBack(TakeBlock, Encoded, Real, others, rest);
  }

  lemma HeaderBack(magic: byte, count: byte, b2: byte, b3: byte, entry: nat, rest: seq<byte>)
    requires entry < LIMIT
    ensures var s := Header(magic, count, b2, b3, entry) + rest;
            s[0] == magic && s[1] == count && Word(s[4..]) == entry && s[8..] == rest
  {
    var s := Header(magic, count, b2, b3, entry) + rest;
    assert s[4..] == Le32(entry) + rest;
    WordOfLe32(entry, rest);
    assert s[8..] == rest;
  }

  lemma FlashHeaderBack(b: Build, rest: seq<byte>)
    requires Packable(b)
    ensures var s := FlashHeader(b) + rest;
            s[0] == MAGIC_FLASH && s[1] == 3 && Word(s[4..]) == b.entry && s[8..] == rest
  {
    HeaderBack(MAGIC_FLASH, 3, 0, b.app, b.entry, rest);
    HeaderBack(MAGIC_FLASH, 3, b.flashMode, b.sizeAndClock, b.entry, rest);
  }

  lemma Regroup(lead: seq<byte>, h: seq<byte>, s: seq<byte>, z: seq<byte>, c: seq<byte>, after: seq<byte>)
    ensures lead + (h + s) + z + c + after == lead + (h + (s + (z + c + after)))
  {
  }

  /** The file from the flash header on. */
  function FromHeader(b: Build, after: seq<byte>): seq<byte>
    requires Packable(b)
  {
    FlashHeader(b) + (WriteMany(Encoded, Segments(b)) + Rest(Segments(b), |Unsummed(b)|, after))
  }

  lemma ImageParts(b: Build, after: seq<byte>)
    requires Packable(b)
    ensures Loadable(b) + after == Lead(b) + FromHeader(b, after)
    ensures |Loadable(b) + after| == |Unsummed(b)| + |Rest(Segments(b), |Unsummed(b)|, after)|
  {
    SectionsAreEncoded(b);
    Regroup(Lead(b), FlashHeader(b), Sections(b), Zeros(Filler(|Unsummed(b)|)), [XorAll(CHECKSUM_INIT, Summed(b))],
            after);
  }

  lemma LeadBehindHeader(b: Build, flash: seq<byte>)
    requires Packable(b) && b.mode == "2"
    ensures var s := Lead(b) + flash;
            |s| >= 8 && s[0] == MAGIC_IROM && s[8..] == Block(0, b.irom, false) + flash
  {
    var block := Block(0, b.irom, false);
    Assoc(Header(MAGIC_IROM, 4, 0, b.app, b.entry), block, flash);
    HeaderBack(MAGIC_IROM, 4, 0, b.app, b.entry, block + flash);
  }

  lemma IromBack(data: seq<byte>, rest: seq<byte>)
    requires 0 < |data| < LIMIT - 16
    ensures TakeBlock(Block(0, data, false) + rest) == Some((Segment(0, Padded(data, false)), rest))
  {
    TakeBlockBack(Segment(0, Padded(data, false)), rest);
  }

  lemma TakenIsShorter(s: seq<byte>)
    ensures TakeBlock(s).Some? ==> |TakeBlock(s).value.1| < |s|
  {
  }

  /**
   * In mode 2 the loader's first block is irom0, and leaves exactly the flash header and what follows it, if and only
   * if irom0 is not empty.
   */
  lemma IromTaken(b: Build, flash: seq<byte>)
    requires Packable(b) && b.mode == "2"
    ensures TakeBlock((Lead(b) + flash)[8..]) == Some((Segment(0, Padded(b.irom, false)), flash)) <==> b.irom != []
  {
    LeadBehindHeader(b, flash);
    if b.irom != [] {
      IromBack(b.irom, flash);
    } else {
      assert Block(0, b.irom, false) + flash == flash;
      TakenIsShorter(flash);
    }
  }

  lemma LeadPassed(b: Build, flash: seq<byte>)
    requires Packable(b) && (b.mode == "2" ==> b.irom != [])
    requires |flash| >= 8 && flash[0] == MAGIC_FLASH
    ensures Load(Lead(b) + flash) == LoadFlash(flash, |Lead(b) + flash|)
  {
    if b.mode == "2" {
      IromTaken(b, flash);
      LeadBehindHeader(b, flash);
    } else {
      assert Lead(b) + flash == flash;
    }
  }

  lemma LoadBehindHeader(b: Build, behind: seq<byte>)
    requires Packable(b) && (b.mode == "2" ==> b.irom != [])
    ensures
      var file := Lead(b) + (FlashHeader(b) + behind);
      Load(file) == Accept(b.entry, TakeMany(TakeBlock, behind, |Segments(b)|), |file|)
  {
    FlashHeaderBack(b, behind);
    LeadPassed(b, FlashHeader(b) + behind);
  }

  lemma OutcomeBehind(entry: nat, xs: seq<Segment>, size: nat, after: seq<byte>, behind: seq<byte>, file: nat)
    requires behind == WriteMany(Encoded, xs) + Rest(xs, size, after) && file == size + |Rest(xs, size, after)|
    ensures Outcome(entry, xs, size, after) == Accept(entry, TakeMany(TakeBlock, behind, |xs|), file)
  {
  }

  /** Past a possible lead, loading is accepting three sections. */
  lemma LoadIs(b: Build, after: seq<byte>)
    requires Packable(b) && (b.mode == "2" ==> b.irom != [])
    ensures Load(Loadable(b) + after) == Outcome(b.entry, Segments(b), |Unsummed(b)|, after)
  {
    var behind := WriteMany(Encoded, Segments(b)) + Rest(Segments(b), |Unsummed(b)|, after);
    ImageParts(b, after);
    LoadBehindHeader(b, behind);
    OutcomeBehind(b.entry, Segments(b), |Unsummed(b)|, after, behind, |Loadable(b) + after|);
  }

  /** The loader recovers the entry address and the three sections, whatever is written behind the checksum. */
  lemma ImageRoundTrip(b: Build, after: seq<byte>)
    requires Packable(b) && (b.mode == "2" ==> b.irom != [])
    requires Complete(Segments(b)) || Spared(Segments(b), |Unsummed(b)|)
    ensures Load(Loadable(b) + after) == Some(Loaded(b.entry, Segments(b)))
  {
    LoadIs(b, after);
    SizesAreEven(b);
    SectionsAreEncoded(b);
    OutcomeIs(b.entry, Segments(b), |Unsummed(b)|, after);
    PlainStands(Segments(b), |Unsummed(b)|, after);
  }

  // ---------- Mode 2 without irom0 ----------

  /** Bytes that come again `d` further on, where zeros follow, are zeros. */
  lemma {:induction false} ShiftedIntoZeros(w: seq<byte>, z: nat, tail: seq<byte>, d: nat, i: nat)
    requires 0 < d <= z && i < |w|
    requires var all := w + (Zeros(z) + tail);
             forall k {:trigger w[k]} :: 0 <= k < |w| ==> k + d < |all| && all[k + d] == w[k]
    ensures w[i] == 0
    decreases |w| - i
  {
    var all := w + (Zeros(z) + tail);
    assert all[i + d] == w[i];
    if i + d < |w| {
      ShiftedIntoZeros(w, z, tail, d, i + d);
    }
  }

  /** A checksum at the end of a line leaves more of the file than what is written behind the last full line. */
  lemma LineLeft(size: nat, more: nat, file: nat, left: nat)
    requires size % 4 == 0 && more < 16 && file == size + Filler(size) + 1 + more
    requires left <= file && left > 15 - (file - left) % 16
    ensures left > more
  {
    FillerEndsTheLine(size);
    if left <= more {
      ModSixteen(size + Filler(size) + 1, more - left);
    }
  }

  lemma LineHolds(size: nat, missing: nat, d: nat, more: nat, left: nat)
    requires size % 4 == 0 && Filler(size) + 1 + more == 8 * missing + d + left && d >= 8 && left > more
    ensures missing == 0 && d <= Filler(size)
  {
    FillerEndsTheLine(size);
  }

  lemma ShiftedEquals(w: seq<byte>, all: seq<byte>, d: nat, end: seq<byte>)
    requires d <= |all| && all[d..] == w + end
    ensures forall k {:trigger w[k]} :: 0 <= k < |w| ==> k + d < |all| && all[k + d] == w[k]
  {
    forall k | 0 <= k < |w|
      ensures k + d < |all| && all[k + d] == w[k]
    {
      assert all[d..][k] == w[k];
    }
  }

  lemma StartsWithText(xs: seq<Segment>)
    requires xs != [] && Complete(xs) && xs[0].addr == TEXT_ADDRESS
    ensures |WriteMany(Encoded, xs)| > 2 && WriteMany(Encoded, xs)[2] == 0x10
  {
    AllThere(Real, xs);
    assert Real(xs[0]);
    var first := Encoded(xs[0]);
    assert first[2] == Le32(TEXT_ADDRESS)[2] == 0x10;
    assert WriteMany(Encoded, xs) == first + WriteMany(Encoded, xs[1..]);
    assert (first + WriteMany(Encoded, xs[1..]))[2] == first[2];
  }

  /** Read from `d` bytes into themselves, sections never come out as they are. */
  lemma NeverFromInside(
    xs: seq<Segment>, size: nat, after: seq<byte>, t: seq<byte>, d: nat, u: seq<byte>, n: nat, end: seq<byte>)
    requires xs != [] && xs[0].addr == TEXT_ADDRESS && Writable(xs)
    requires d >= 8 && size % 4 == 0 && |end| > |after|
    requires t == WriteMany(Encoded, xs) + Rest(xs, size, after) && d <= |t| && u == t[d..]
    ensures TakeMany(TakeBlock, u, n) != Some((xs, end))
  {
    var w, tail := WriteMany(Encoded, xs), [XorAll(CHECKSUM_INIT, Gathered(xs))] + after;
    Assoc(Zeros(Filler(size)), [XorAll(CHECKSUM_INIT, Gathered(xs))], after);
    EncodedLength(xs);
    TakenLength(u, n);
    if TakeMany(TakeBlock, u, n) == Some((xs, end)) {
      LineHolds(size, |xs| - Present(Real, xs), d, |after|, |end|);
      BlocksInverse();
      AllWereThere(TakeBlock, Encoded, Real, u, xs, end);
      ShiftedEquals(w, t, d, end);
      StartsWithText(xs);
      ShiftedIntoZeros(w, Filler(size), tail, d, 2);
    }
  }

  lemma DropTwice(t: seq<byte>, i: nat, j: nat)
    requires i + j <= |t|
    ensures t[i..][j..] == t[i + j..]
  {
  }

  lemma LoadedWasTaken(s: seq<byte>, file: nat, entry: nat, xs: seq<Segment>) returns (n: nat, end: seq<byte>)
    requires LoadFlash(s, file) == Some(Loaded(entry, xs))
    ensures |s| >= 8 && |end| <= file && |end| > 15 - (file - |end|) % 16
    ensures TakeMany(TakeBlock, s[8..], n) == Some((xs, end))
  {
    n := s[1];
    end := TakeMany(TakeBlock, s[8..], n).value.1;
  }

  lemma NotLoaded(s: seq<byte>, file: nat, entry: nat, xs: seq<Segment>, size: nat, more: nat)
    requires size % 4 == 0 && more < 16 && file == size + Filler(size) + 1 + more
    requires |s| >= 8 ==> forall n, end :: |end| > more ==> TakeMany(TakeBlock, s[8..], n) != Some((xs, end))
    ensures LoadFlash(s, file) != Some(Loaded(entry, xs))
  {
    if LoadFlash(s, file) == Some(Loaded(entry, xs)) {
      var n, end := LoadedWasTaken(s, file, entry, xs);
      LineLeft(size, more, file, |end|);
    }
  }

  lemma FromInside(
    entry: nat, xs: seq<Segment>, size: nat, after: seq<byte>, t: seq<byte>, skip: nat, s: seq<byte>, file: nat)
    requires xs != [] && xs[0].addr == TEXT_ADDRESS && Writable(xs) && size % 4 == 0 && |after| < 16
    requires t == WriteMany(Encoded, xs) + Rest(xs, size, after) && file == size + Filler(size) + 1 + |after|
    requires skip <= |t| && s == t[skip..]
    ensures LoadFlash(s, file) != Some(Loaded(entry, xs))
  {
    if |s| >= 8 {
      DropTwice(t, skip, 8);
      forall n, end | |end| > |after|
        ensures TakeMany(TakeBlock, s[8..], n) != Some((xs, end))
      {
        NeverFromInside(xs, size, after, t, skip + 8, s[8..], n, end);
      }
    }
    NotLoaded(s, file, entry, xs, size, |after|);
  }

  lemma HeaderAsBlock(b: Build, t: seq<byte>)
    requires Packable(b) && TakeBlock(FlashHeader(b) + t).Some?
    ensures b.entry <= |t| && TakeBlock(FlashHeader(b) + t).value.1 == t[b.entry..]
  {
    FlashHeaderBack(b, t);
    assert (FlashHeader(b) + t)[8 + b.entry..] == t[b.entry..];
  }

  lemma LoadsBehind(b: Build, flash: seq<byte>)
    requires Packable(b) && b.mode == "2" && b.irom == []
    ensures Load(Lead(b) + flash) == match TakeBlock(flash) case None => None
                                     case Some((_, rest)) => LoadFlash(rest, |Lead(b) + flash|)
  {
    LeadBehindHeader(b, flash);
    assert Block(0, b.irom, false) + flash == flash;
  }

  /** Then the loader takes the flash header for the header of irom0, and what it loads is not what was built. */
  lemma WithoutIrom(b: Build, after: seq<byte>)
    requires Packable(b) && b.mode == "2" && b.irom == [] && |after| < 16
    ensures Load(Loadable(b) + after) != Some(Loaded(b.entry, Segments(b)))
  {
    var t := WriteMany(Encoded, Segments(b)) + Rest(Segments(b), |Unsummed(b)|, after);
    ImageParts(b, after);
    LoadsBehind(b, FlashHeader(b) + t);
    if TakeBlock(FlashHeader(b) + t).Some? {
      HeaderAsBlock(b, t);
      SectionsAreEncoded(b);
      SizesAreEven(b);
      FromInside(b.entry, Segments(b), |Unsummed(b)|, after, t, b.entry, t[b.entry..],
                 |Loadable(b) + after|);
    }
  }

  // ---------- When a file is loaded as it was built ----------

  /** In mode 1 the front ends before 64 KB, where irom0 is then put: there is fill between them. */
  predicate LeavesRoom(b: Build)
    requires Packable(b)
  {
    b.mode == "1" ==> |Loadable(b)| < 0x10000
  }

  lemma WholeLines(size: nat)
    requires size % 16 == 0 && size < 0x10000
    ensures size + 16 <= 0x10000
  {
  }

  lemma TrailerIsPlain(b: Build, crc: int)
    requires Packable(b) && -0x8000_0000 <= crc < 0x8000_0000 && LeavesRoom(b)
    ensures StandsIn(Segments(b), |Unsummed(b)|, Trailer(b.mode, |Loadable(b)|, b.irom, crc))
       <==> Complete(Segments(b)) || Spared(Segments(b), |Unsummed(b)|)
  {
    var after := Trailer(b.mode, |Loadable(b)|, b.irom, crc);
    SizesAreEven(b);
    SectionsAreEncoded(b);
    LoadableIsAligned(b);
    if b.mode == "1" {
      WholeLines(|Loadable(b)|);
      FillIsThere(0x10000 - |Loadable(b)|, b.irom + CrcWord(crc));
      FilledTrailer(Segments(b), |Unsummed(b)|, after);
    } else {
      ShortTrailer(Segments(b), |Unsummed(b)|, after);
    }
  }

  lemma FillIsThere(n: nat, behind: seq<byte>)
    requires n >= 16
    ensures var s := Filled(n) + behind;
            |s| >= 16 && forall k :: 0 <= k < 16 ==> s[k] == 0xFF
  {
  }

  /**
   * Exactly when a loader finds in the file what was built: nothing wrong stands in for an empty section (StandsIn).
   * Unless a mode 1 front reaches 64 KB, that means that no section is empty, or only the last, at address 0, with
   * eight zeros to stand in for it.
   */
  lemma ImageLoads(b: Build, crc: int)
    requires Packable(b) && -0x8000_0000 <= crc < 0x8000_0000
    ensures Load(Written(b, crc)) == Some(Loaded(b.entry, Segments(b)))
       <==> && (b.mode == "2" ==> b.irom != [])
            && StandsIn(Segments(b), |Unsummed(b)|, Trailer(b.mode, |Loadable(b)|, b.irom, crc))
    ensures LeavesRoom(b) ==>
              (Load(Written(b, crc)) == Some(Loaded(b.entry, Segments(b)))
          <==> && (b.mode == "2" ==> b.irom != [])
               && (Complete(Segments(b)) || Spared(Segments(b), |Unsummed(b)|)))
  {
    var after := Trailer(b.mode, |Loadable(b)|, b.irom, crc);
    if b.mode == "2" && b.irom == [] {
      WithoutIrom(b, after);
    } else {
      LoadIs(b, after);
      SectionsAreEncoded(b);
      OutcomeIs(b.entry, Segments(b), |Unsummed(b)|, after);
    }
    if LeavesRoom(b) {
      TrailerIsPlain(b, crc);
    }
  }

  /**
   * When the front does reach 64 KB, a file can load by luck: seven zeros and a checksum of 0 are the header of an
   * empty rodata section, and the 16th byte behind them, in irom0, is taken for the checksum.
   */
  lemma LoadsByLuck(b: Build, crc: int)
    requires Packable(b) && -0x8000_0000 <= crc < 0x8000_0000
    requires b.mode == "1" && |Loadable(b)| >= 0x10000 && |b.irom| >= 16 && b.irom[15] == 0
    requires b.text != [] && b.data != [] && b.rodata == [] && b.rodataAddr == 0
    requires |Unsummed(b)| % 16 == 8 && XorAll(CHECKSUM_INIT, Summed(b)) == 0
    ensures Load(Written(b, crc)) == Some(Loaded(b.entry, Segments(b)))
    ensures !Complete(Segments(b)) && !Spared(Segments(b), |Unsummed(b)|)
  {
    var xs, size, after := Segments(b), |Unsummed(b)|, b.irom + CrcWord(crc);
    assert Trailer(b.mode, |Loadable(b)|, b.irom, crc) == [] + after == after;
    SectionsAreEncoded(b);
    LuckyLine(xs, size, after);
    ImageLoads(b, crc);
  }

  /** Seven zeros and a checksum of 0. */
  lemma LuckyHeader(size: nat, after: seq<byte>)
    requires size % 16 == 8
    ensures Le32(0) + Zeros(4) <= Line(size, 0, after)
  {
    assert Filler(size) == 7;
    assert Line(size, 0, after)[..8] == Zeros(8) == Zeros(4) + Zeros(4);
    assert Le32(0) == Zeros(4);
  }

  lemma LuckyByte(size: nat, summed: seq<byte>, after: seq<byte>)
    requires size % 16 == 8 && XorAll(CHECKSUM_INIT, summed) == 0 && |after| >= 16 && after[15] == 0
    ensures ChecksumAt(size + 8, summed, Line(size, 0, after)[8..])
  {
    assert Filler(size) == 7;
    assert Line(size, 0, after)[8..] == after;
  }

  lemma LuckyLine(xs: seq<Segment>, size: nat, after: seq<byte>)
    requires |xs| > 0 && Complete(xs[..|xs| - 1]) && xs[|xs| - 1] == Segment(0, [])
    requires size % 16 == 8 && XorAll(CHECKSUM_INIT, Gathered(xs)) == 0 && |after| >= 16 && after[15] == 0
    ensures StandsIn(xs, size, after)
  {
    LastMissing(Real, xs);
    OneHeader(xs[|xs| - 1]);
    LuckyHeader(size, after);
    LuckyByte(size, Gathered(xs), after);
  }
}

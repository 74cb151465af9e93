/**
 Screenshots as PNG files (ISO/IEC 15948): the writer on the device and the validator on the host. CRC-32 and
 zlib are functions of which only the laws of `Lawful` are known.
 */
module Png {
  import opened Common

  const SIGNATURE: seq<byte> := [0x89, 0x50, 0x4E, 0x47, 0x0D, 0x0A, 0x1A, 0x0A]
  const IHDR: seq<byte> := [0x49, 0x48, 0x44, 0x52]
  const IDAT: seq<byte> := [0x49, 0x44, 0x41, 0x54]
  const IEND: seq<byte> := [0x49, 0x45, 0x4E, 0x44]
  /** The last twelve bytes of every complete file. */
  const ENDING: seq<byte> := [0, 0, 0, 0, 0x49, 0x45, 0x4E, 0x44, 0xAE, 0x42, 0x60, 0x82]

  const WIDTH := 1024
  const HEIGHT := 768
  const SIDE_LIMIT := 4096
  const AREA_LIMIT := 4194304
  const MAX_BUFFER := 64 * 1024 * 1024
  const WORD := 0x1_0000_0000

  /** Inflating gives nothing unless the input is one complete stream with nothing behind it. */
  datatype Zlib = Zlib(crc: seq<byte> -> int, deflate: seq<byte> -> seq<byte>, inflate: seq<byte> -> Option<seq<byte>>)

  /** The most that a level-1 compression of n bytes can need. */
  ghost function CompressBound(n: nat): nat {
    n + n / 4096 + n / 16384 + n / 33554432 + 13
  }

  ghost predicate Lawful(z: Zlib) {
    && (forall b {:trigger z.crc(b)} :: 0 <= z.crc(b) < WORD)
    && z.crc(IEND) == 0xAE42_6082
    && (forall b {:trigger z.deflate(b)} ::
          z.inflate(z.deflate(b)) == Some(b) && 0 < |z.deflate(b)| <= CompressBound(|b|))
  }

  // Numbers.

  function EncodeU32(v: nat): (r: seq<byte>)
    ensures |r| == 4
  {
    [v / 0x100_0000 % 0x100, v / 0x1_0000 % 0x100, v / 0x100 % 0x100, v % 0x100]
  }

  lemma DecodeEncodeU32(v: nat)
    requires v < WORD
    ensures BigEndian32(EncodeU32(v)) == v
  {
    assert v / 0x100_0000 < 0x100;
    assert v / 0x1_0000 == v / 0x100_0000 * 0x100 + v / 0x1_0000 % 0x100;
    assert v / 0x100 == v / 0x1_0000 * 0x100 + v / 0x100 % 0x100;
  }

  lemma EncodeDecodeU32(b: seq<byte>)
    requires |b| == 4
    ensures EncodeU32(BigEndian32(b)) == b
  {
    var v := BigEndian32(b);
    assert v / 0x100 == (b[0] as int) * 0x1_0000 + (b[1] as int) * 0x100 + b[2];
    assert v / 0x1_0000 == (b[0] as int) * 0x100 + b[1];
    assert v / 0x100_0000 == b[0];
  }

  // Chunks (section 5.3).

  datatype Chunk = Chunk(kind: seq<byte>, payload: seq<byte>)

  ghost predicate Fits(c: Chunk) {
    |c.kind| == 4 && |c.payload| < WORD
  }

  function Checksum(z: Zlib, c: Chunk): nat {
    var n := z.crc(c.kind + c.payload);
    if 0 <= n < WORD then n else 0
  }

  ghost function Serialized(z: Zlib, c: Chunk): seq<byte> {
    EncodeU32(|c.payload|) + c.kind + c.payload + EncodeU32(Checksum(z, c))
  }

  ghost function SerializedAll(z: Zlib, cs: seq<Chunk>): seq<byte> {
    if cs == [] then [] else Serialized(z, cs[0]) + SerializedAll(z, cs[1..])
  }

  ghost predicate AllFit(cs: seq<Chunk>) {
    forall i :: 0 <= i < |cs| ==> Fits(cs[i])
  }

  /** Whether a whole chunk with the right checksum starts here. */
  ghost predicate Readable(z: Zlib, b: seq<byte>) {
    && |b| >= 12 && BigEndian32(b) <= |b| - 12
    && BigEndian32(b[8 + BigEndian32(b)..]) == Checksum(z, ChunkAt(b))
  }

  ghost function ChunkAt(b: seq<byte>): Chunk
    requires |b| >= 12 && BigEndian32(b) <= |b| - 12
  {
    Chunk(b[4..8], b[8..8 + BigEndian32(b)])
  }

  lemma ReadSerialized(z: Zlib, c: Chunk, rest: seq<byte>)
    requires Fits(c)
    ensures var b := Serialized(z, c) + rest;
            Readable(z, b) && ChunkAt(b) == c && BigEndian32(b) == |c.payload| && b[12 + |c.payload|..] == rest
  {
    var b, n := Serialized(z, c) + rest, |c.payload|;
    DecodeEncodeU32(n);
    DecodeEncodeU32(Checksum(z, c));
    assert b[..4] == EncodeU32(n) && BigEndian32(b) == BigEndian32(b[..4]);
    assert b[4..8] == c.kind && b[8..8 + n] == c.payload;
    assert b[8 + n..][..4] == EncodeU32(Checksum(z, c));
    assert BigEndian32(b[8 + n..]) == BigEndian32(b[8 + n..][..4]);
  }

  lemma SerializedRead(z: Zlib, b: seq<byte>)
    requires Readable(z, b)
    ensures var c := ChunkAt(b); Fits(c) && Serialized(z, c) == b[..12 + |c.payload|]
  {
    var c, n := ChunkAt(b), BigEndian32(b);
    EncodeDecodeU32(b[..4]);
    assert BigEndian32(b[..4]) == n;
    var sum := b[8 + n..][..4];
    assert BigEndian32(sum) == BigEndian32(b[8 + n..]);
    EncodeDecodeU32(sum);
    assert b[..12 + n] == b[..4] + b[4..8] + b[8..8 + n] + sum;
  }

  lemma {:induction false} SerializedMore(z: Zlib, done: seq<Chunk>, c: Chunk)
    ensures SerializedAll(z, done + [c]) == SerializedAll(z, done) + Serialized(z, c)
  {
    if done == [] {
      assert [c][1..] == [];
    } else {
      SerializedMore(z, done[1..], c);
      assert (done + [c])[0] == done[0] && (done + [c])[1..] == done[1..] + [c];
      Associate(Serialized(z, done[0]), SerializedAll(z, done[1..]), Serialized(z, c));
    }
  }

  /** Chunks read from the front of a file are the front of every way to split it. */
  lemma {:induction false} ReadInOrder(z: Zlib, done: seq<Chunk>, rest: seq<byte>, cs: seq<Chunk>)
    requires AllFit(done) && AllFit(cs) && SerializedAll(z, done) + rest == SerializedAll(z, cs)
    ensures done <= cs && SerializedAll(z, cs[|done|..]) == rest
  {
    if done == [] {
      assert SerializedAll(z, done) + rest == rest && cs[0..] == cs;
    } else {
      var behind := SerializedAll(z, done[1..]) + rest;
      assert SerializedAll(z, done) + rest == Serialized(z, done[0]) + behind;
      ReadSerialized(z, done[0], behind);
      assert cs != [];
      ReadSerialized(z, cs[0], SerializedAll(z, cs[1..]));
      ReadInOrder(z, done[1..], rest, cs[1..]);
      assert cs[|done|..] == cs[1..][|done| - 1..];
    }
  }

  /** A file splits into chunks in one way at most. */
  lemma SplitUnique(z: Zlib, a: seq<Chunk>, b: seq<Chunk>)
    requires AllFit(a) && AllFit(b) && SerializedAll(z, a) == SerializedAll(z, b)
    ensures a == b
  {
    assert SerializedAll(z, a) + [] == SerializedAll(z, a);
    ReadInOrder(z, a, [], b);
    assert b[|a|..] == [];
  }

  // The order of chunks (section 5.6).

  predicate IsIdat(c: Chunk) { c.kind == IDAT }

  ghost predicate HasIdat(cs: seq<Chunk>) {
    cs != [] && (HasIdat(cs[..|cs| - 1]) || IsIdat(cs[|cs| - 1]))
  }

  /** The run of IDAT chunks has ended. */
  ghost predicate Closed(cs: seq<Chunk>) {
    cs != [] && (Closed(cs[..|cs| - 1]) || (HasIdat(cs[..|cs| - 1]) && !IsIdat(cs[|cs| - 1])))
  }

  ghost predicate OneRun(cs: seq<Chunk>) {
    cs == [] || (OneRun(cs[..|cs| - 1]) && !(Closed(cs[..|cs| - 1]) && IsIdat(cs[|cs| - 1])))
  }

  lemma {:induction false} HasIdatMeans(cs: seq<Chunk>)
    ensures HasIdat(cs) <==> exists i :: 0 <= i < |cs| && IsIdat(cs[i])
  {
    if cs != [] {
      HasIdatMeans(cs[..|cs| - 1]);
    }
  }

  /** Some IDAT chunk is followed, near or far, by another kind. */
  ghost predicate Interrupted(cs: seq<Chunk>) {
    exists i, j :: 0 <= i < j < |cs| && IsIdat(cs[i]) && !IsIdat(cs[j])
  }

  lemma {:induction false} ClosedMeans(cs: seq<Chunk>)
    ensures Closed(cs) <==> Interrupted(cs)
  {
    if cs != [] {
      ClosedMeans(cs[..|cs| - 1]);
      HasIdatMeans(cs[..|cs| - 1]);
    }
  }

  /** Between two IDAT chunks there are only IDAT chunks. */
  ghost predicate Consecutive(cs: seq<Chunk>) {
    forall i, j, k :: 0 <= i < j < k < |cs| && IsIdat(cs[i]) && IsIdat(cs[k]) ==> IsIdat(cs[j])
  }

  lemma ConsecutiveBefore(cs: seq<Chunk>, c: Chunk)
    requires Consecutive(cs + [c])
    ensures Consecutive(cs) && !(Interrupted(cs) && IsIdat(c))
  {
    var more := cs + [c];
    forall i, j, k | 0 <= i < j < k < |cs| && IsIdat(cs[i]) && IsIdat(cs[k]) ensures IsIdat(cs[j]) {
      assert more[i] == cs[i] && more[j] == cs[j] && more[k] == cs[k];
    }
    if IsIdat(c) {
      forall i, j | 0 <= i < j < |cs| && IsIdat(cs[i]) ensures IsIdat(cs[j]) {
        assert more[i] == cs[i] && more[j] == cs[j] && more[|cs|] == c;
      }
    }
  }

  lemma ConsecutiveNext(cs: seq<Chunk>, c: Chunk)
    requires Consecutive(cs) && !(Interrupted(cs) && IsIdat(c))
    ensures Consecutive(cs + [c])
  {
    var more := cs + [c];
    forall i, j, k | 0 <= i < j < k < |more| && IsIdat(more[i]) && IsIdat(more[k]) ensures IsIdat(more[j]) {
      assert more[i] == cs[i] && more[j] == cs[j];
    }
  }

  lemma {:induction false} OneRunMeans(cs: seq<Chunk>)
    ensures OneRun(cs) <==> Consecutive(cs)
  {
    if cs != [] {
      var init, last := cs[..|cs| - 1], cs[|cs| - 1];
      OneRunMeans(init);
      ClosedMeans(init);
      assert init + [last] == cs;
      if Consecutive(cs) { ConsecutiveBefore(init, last); }
      if OneRun(cs) { ConsecutiveNext(init, last); }
    }
  }

  ghost function Compressed(cs: seq<Chunk>): seq<byte> {
    if cs == [] then []
    else Compressed(cs[..|cs| - 1]) + if IsIdat(cs[|cs| - 1]) then cs[|cs| - 1].payload else []
  }

  // What the validator accepts.

  datatype Profile = Drm | Qt

  ghost predicate Bounded(profile: Profile, width: nat, height: nat) {
    && 0 < width <= SIDE_LIMIT && 0 < height <= SIDE_LIMIT && width * height <= AREA_LIMIT
    && (profile.Drm? ==> width == WIDTH && height == HEIGHT)
  }

  /** An eight-bit, non-interlaced header of the right size; only the Qt profile may carry transparency. */
  predicate HeaderFits(payload: seq<byte>, profile: Profile, width: nat, height: nat) {
    && |payload| == 13 && BigEndian32(payload) == width && BigEndian32(payload[4..]) == height
    && payload[8] == 8 && (payload[9] == 2 || (profile.Qt? && payload[9] == 6))
    && payload[10] == payload[11] == payload[12] == 0
  }

  /** The Qt profile takes no critical chunk but the three it knows. */
  predicate Known(c: Chunk, profile: Profile)
    requires |c.kind| == 4
  {
    profile.Drm? || c.kind == IHDR || c.kind == IDAT || c.kind == IEND || c.kind[0] / 32 % 2 == 1
  }

  /** A chunk that may follow others. */
  ghost predicate GoodNext(cs: seq<Chunk>, c: Chunk, profile: Profile, width: nat, height: nat) {
    && Fits(c)
    && (if cs == [] then c.kind == IHDR && HeaderFits(c.payload, profile, width, height) else c.kind != IHDR)
    && Known(c, profile) && !(Closed(cs) && IsIdat(c)) && (c.kind == IEND ==> c.payload == [])
  }

  ghost predicate GoodAll(cs: seq<Chunk>, profile: Profile, width: nat, height: nat) {
    cs != [] ==>
      var before, last := cs[..|cs| - 1], cs[|cs| - 1];
      GoodAll(before, profile, width, height) && GoodNext(before, last, profile, width, height)
  }

  ghost predicate Unended(cs: seq<Chunk>) {
    forall i :: 0 <= i < |cs| ==> cs[i].kind != IEND
  }

  /** One header first, one run of image data, and the end chunk last. */
  ghost predicate WellFormed(cs: seq<Chunk>, profile: Profile, width: nat, height: nat) {
    && GoodAll(cs, profile, width, height) && HasIdat(cs)
    && cs != [] && cs[|cs| - 1].kind == IEND && Unended(cs[..|cs| - 1])
  }

  function RowBytes(header: seq<byte>, width: nat): nat
    requires |header| == 13
  {
    1 + width * if header[9] == 2 then 3 else 4
  }

  predicate FilterFits(b: byte, profile: Profile) {
    b == 0 || (profile.Qt? && b <= 4)
  }

  /** The first byte of each of the rows names a filter of the profile. */
  ghost predicate RowsFit(raw: seq<byte>, rowBytes: nat, rows: nat, profile: Profile)
    requires rowBytes * rows <= |raw| && rowBytes > 0
  {
    rows > 0 ==> && rowBytes * (rows - 1) < |raw| && FilterFits(raw[rowBytes * (rows - 1)], profile)
                 && RowsFit(raw, rowBytes, rows - 1, profile)
  }

  ghost predicate Image(z: Zlib, compressed: seq<byte>, rowBytes: nat, height: nat, profile: Profile)
    requires rowBytes > 0
  {
    var raw := z.inflate(compressed);
    raw.Some? && |raw.value| == rowBytes * height && RowsFit(raw.value, rowBytes, height, profile)
  }

  ghost predicate Describes(z: Zlib, cs: seq<Chunk>, data: seq<byte>, profile: Profile, width: nat, height: nat) {
    && data == SIGNATURE + SerializedAll(z, cs) && WellFormed(cs, profile, width, height)
    && Image(z, Compressed(cs), RowBytes(Header(cs, profile, width, height), width), height, profile)
  }

  ghost function Header(cs: seq<Chunk>, profile: Profile, width: nat, height: nat): (r: seq<byte>)
    requires GoodAll(cs, profile, width, height) && cs != []
    ensures |r| == 13
  {
    GoodAt(cs, 0, profile, width, height);
    assert cs[..0] == [];
    cs[0].payload
  }

  lemma {:induction false} GoodAt(cs: seq<Chunk>, n: nat, profile: Profile, width: nat, height: nat)
    requires GoodAll(cs, profile, width, height) && n < |cs|
    ensures GoodNext(cs[..n], cs[n], profile, width, height)
  {
    var last := |cs| - 1;
    if n < last {
      GoodAt(cs[..last], n, profile, width, height);
      assert cs[..last][..n] == cs[..n];
    }
  }

  lemma {:induction false} GoodFits(cs: seq<Chunk>, profile: Profile, width: nat, height: nat)
    requires GoodAll(cs, profile, width, height)
    ensures AllFit(cs)
  {
    forall i | 0 <= i < |cs| ensures Fits(cs[i]) {
      GoodAt(cs, i, profile, width, height);
    }
  }

  /** There is at most one way to see a file as a well-formed sequence of chunks. */
  lemma DescriptionUnique(z: Zlib, a: seq<Chunk>, b: seq<Chunk>, data: seq<byte>,
                          profile: Profile, width: nat, height: nat)
    requires Describes(z, a, data, profile, width, height) && Describes(z, b, data, profile, width, height)
    ensures a == b
  {
    GoodFits(a, profile, width, height);
    GoodFits(b, profile, width, height);
    assert SerializedAll(z, a) == data[8..] == SerializedAll(z, b);
    SplitUnique(z, a, b);
  }

  /** The next chunk can be used: it is whole, it may come here, and an end chunk ends the file. */
  ghost predicate Usable(z: Zlib, done: seq<Chunk>, rest: seq<byte>, profile: Profile, width: nat, height: nat) {
    && Readable(z, rest) && GoodNext(done, ChunkAt(rest), profile, width, height)
    && (ChunkAt(rest).kind == IEND ==> |rest| == 12)
  }

  /** What follows the chunks read is one whole chunk and then the others. */
  lemma NextOf(z: Zlib, done: seq<Chunk>, rest: seq<byte>, cs: seq<Chunk>)
    requires AllFit(done) && AllFit(cs) && SerializedAll(z, done) + rest == SerializedAll(z, cs) && rest != []
    ensures |done| < |cs| && cs[..|done|] == done
    ensures rest == Serialized(z, cs[|done|]) + SerializedAll(z, cs[|done| + 1..])
  {
    ReadInOrder(z, done, rest, cs);
    var later := cs[|done|..];
    assert later != [] && later[0] == cs[|done|] && later[1..] == cs[|done| + 1..];
  }

  lemma EndIsLast(cs: seq<Chunk>, n: nat, profile: Profile, width: nat, height: nat)
    requires WellFormed(cs, profile, width, height) && n < |cs| && cs[n].kind == IEND
    ensures n == |cs| - 1
  {
    var before := cs[..|cs| - 1];
    assert forall i :: 0 <= i < |before| ==> before[i] == cs[i];
  }

  /** If some well-formed sequence of chunks makes up the file, its next chunk can be used. */
  lemma Continues(z: Zlib, done: seq<Chunk>, rest: seq<byte>, cs: seq<Chunk>, profile: Profile, width: nat, height: nat)
    requires GoodAll(done, profile, width, height) && rest != []
    requires SerializedAll(z, done) + rest == SerializedAll(z, cs) && WellFormed(cs, profile, width, height)
    ensures Usable(z, done, rest, profile, width, height)
  {
    var n := |done|;
    GoodFits(done, profile, width, height);
    GoodFits(cs, profile, width, height);
    NextOf(z, done, rest, cs);
    GoodAt(cs, n, profile, width, height);
    if cs[n].kind == IEND {
      EndIsLast(cs, n, profile, width, height);
      assert cs[n + 1..] == [];
    }
    UsableHere(z, done, cs[n], SerializedAll(z, cs[n + 1..]), profile, width, height);
  }

  lemma UsableHere(z: Zlib, done: seq<Chunk>, c: Chunk, tail: seq<byte>, profile: Profile, width: nat, height: nat)
    requires GoodNext(done, c, profile, width, height) && (c.kind == IEND ==> tail == [])
    ensures Usable(z, done, Serialized(z, c) + tail, profile, width, height)
  {
    ReadSerialized(z, c, tail);
  }

  // The same, without any of the validator's own tests.

  /** The payloads of the IDAT chunks, from the first on. */
  ghost function ImageData(cs: seq<Chunk>): seq<byte> {
    if cs == [] then [] else (if cs[0].kind == IDAT then cs[0].payload else []) + ImageData(cs[1..])
  }

  ghost predicate AtMost(raw: seq<byte>, at: int, most: int) {
    0 <= at < |raw| && raw[at] <= most
  }

  /** The header of an image with so many channels. */
  ghost function HeaderOf(width: nat, height: nat, channels: nat): (r: seq<byte>)
    ensures |r| == 13 && r[9] == if channels == 3 then 2 else 6
  {
    EncodeU32(width) + EncodeU32(height) + [8, if channels == 3 then 2 else 6, 0, 0, 0]
  }

  /** A filter byte, and then the channels of every pixel. */
  ghost function RowSize(channels: nat, width: nat): nat {
    1 + channels * width
  }

  /** So many rows of so many bytes, each beginning with a filter that is not too large. */
  ghost predicate PixelRows(raw: Option<seq<byte>>, size: nat, rows: nat, most: nat) {
    raw.Some? && |raw.value| == size * rows && forall row :: 0 <= row < rows ==> AtMost(raw.value, size * row, most)
  }

  /** The header of an image with three or four channels of eight bits, and the image itself, row by row. */
  ghost predicate Painted(z: Zlib, cs: seq<Chunk>, profile: Profile, width: nat, height: nat, channels: nat)
    requires cs != []
  {
    && cs[0].payload == HeaderOf(width, height, channels)
    && PixelRows(z.inflate(ImageData(cs)), RowSize(channels, width), height, if profile.Drm? then 0 else 4)
  }

  /** One header first, one end last, and one run of image data between them, with no unknown critical chunk for Qt. */
  ghost predicate InOrder(cs: seq<Chunk>, profile: Profile) {
    && |cs| >= 3 && cs[0].kind == IHDR && cs[|cs| - 1] == Chunk(IEND, [])
    && (forall i :: 0 <= i < |cs| ==> |cs[i].kind| == 4 && |cs[i].payload| < 0x1_0000_0000)
    && (forall i :: 0 < i < |cs| - 1 ==> cs[i].kind != IHDR && cs[i].kind != IEND)
    && (forall i :: 0 < i < |cs| - 1 && profile.Qt? ==> cs[i].kind == IDAT || cs[i].kind[0] % 64 >= 32)
    && (exists i :: 0 <= i < |cs| && cs[i].kind == IDAT)
    && forall i, j, k :: 0 <= i < j < k < |cs| && cs[i].kind == IDAT && cs[k].kind == IDAT ==> cs[j].kind == IDAT
  }

  ghost predicate Screenshot(z: Zlib, cs: seq<Chunk>, data: seq<byte>, profile: Profile, width: nat, height: nat) {
    && data == SIGNATURE + SerializedAll(z, cs) && InOrder(cs, profile)
    && (Painted(z, cs, profile, width, height, 3) || (profile.Qt? && Painted(z, cs, profile, width, height, 4)))
  }

  lemma SerializedMeans(z: Zlib, c: Chunk)
    requires Lawful(z)
    ensures Serialized(z, c) == EncodeU32(|c.payload|) + c.kind + c.payload + EncodeU32(z.crc(c.kind + c.payload))
  {
  }

  lemma {:induction false} ImageDataMore(cs: seq<Chunk>, c: Chunk)
    ensures ImageData(cs + [c]) == ImageData(cs) + if c.kind == IDAT then c.payload else []
  {
    if cs == [] {
      assert (cs + [c])[1..] == [];
    } else {
      assert (cs + [c])[1..] == cs[1..] + [c];
      ImageDataMore(cs[1..], c);
    }
  }

  lemma {:induction false} CompressedMeans(cs: seq<Chunk>)
    ensures Compressed(cs) == ImageData(cs)
  {
    if cs != [] {
      var last := |cs| - 1;
      CompressedMeans(cs[..last]);
      ImageDataMore(cs[..last], cs[last]);
      assert cs[..last] + [cs[last]] == cs;
    }
  }

  lemma {:induction false} RowsFitMeans(raw: seq<byte>, size: nat, rows: nat, profile: Profile)
    requires size * rows <= |raw| && size > 0
    ensures RowsFit(raw, size, rows, profile) <==>
            forall row :: 0 <= row < rows ==> AtMost(raw, size * row, if profile.Drm? then 0 else 4)
  {
    if rows > 0 {
      Product(size, rows);
      RowsFitMeans(raw, size, rows - 1, profile);
    }
  }

  /** What a chunk must be at its place, its neighbours aside. */
  ghost predicate GoodHere(cs: seq<Chunk>, i: nat, profile: Profile, width: nat, height: nat)
    requires i < |cs|
  {
    && Fits(cs[i]) && Known(cs[i], profile) && (cs[i].kind == IEND ==> cs[i].payload == [])
    && if i == 0 then cs[i].kind == IHDR && HeaderFits(cs[i].payload, profile, width, height) else cs[i].kind != IHDR
  }

  lemma {:induction false} GoodAllMeans(cs: seq<Chunk>, profile: Profile, width: nat, height: nat)
    ensures GoodAll(cs, profile, width, height) <==>
            OneRun(cs) && forall i :: 0 <= i < |cs| ==> GoodHere(cs, i, profile, width, height)
  {
    if cs != [] {
      var init, last := cs[..|cs| - 1], |cs| - 1;
      GoodAllMeans(init, profile, width, height);
      assert GoodNext(init, cs[last], profile, width, height) <==>
             GoodHere(cs, last, profile, width, height) && !(Closed(init) && IsIdat(cs[last]));
      assert forall i :: 0 <= i < last ==>
                           (GoodHere(init, i, profile, width, height) <==> GoodHere(cs, i, profile, width, height));
    }
  }

  lemma HeaderMeans(payload: seq<byte>, profile: Profile, width: nat, height: nat)
    requires width < WORD && height < WORD
    ensures HeaderFits(payload, profile, width, height) <==>
            payload == HeaderOf(width, height, 3) || (profile.Qt? && payload == HeaderOf(width, height, 4))
  {
    var sides := EncodeU32(width) + EncodeU32(height);
    DecodeEncodeU32(width);
    DecodeEncodeU32(height);
    if |payload| == 13 {
      EncodeDecodeU32(payload[..4]);
      EncodeDecodeU32(payload[4..8]);
      assert BigEndian32(payload) == BigEndian32(payload[..4]);
      assert BigEndian32(payload[4..]) == BigEndian32(payload[4..8]);
      assert payload == payload[..4] + payload[4..8] + payload[8..];
      assert payload[8..] == [payload[8], payload[9], payload[10], payload[11], payload[12]];
      assert sides[..4] == EncodeU32(width) && sides[4..] == EncodeU32(height);
    }
    if payload == sides + [8, 2, 0, 0, 0] || payload == sides + [8, 6, 0, 0, 0] {
      assert payload[..4] == EncodeU32(width) && payload[4..8] == EncodeU32(height);
    }
  }

  lemma WellFormedMeans(cs: seq<Chunk>, profile: Profile, width: nat, height: nat)
    requires width < WORD && height < WORD
    ensures WellFormed(cs, profile, width, height) <==>
            InOrder(cs, profile) && HeaderFits(cs[0].payload, profile, width, height)
  {
    GoodAllMeans(cs, profile, width, height);
    OneRunMeans(cs);
    HasIdatMeans(cs);
    if WellFormed(cs, profile, width, height) {
      InOrderThen(cs, profile, width, height);
    }
    if InOrder(cs, profile) && HeaderFits(cs[0].payload, profile, width, height) {
      forall i | 0 <= i < |cs| ensures GoodHere(cs, i, profile, width, height) {
        GoodInOrder(cs, i, profile, width, height);
      }
      UnendedInOrder(cs, profile);
    }
  }

  lemma BetweenEnds(cs: seq<Chunk>, i: nat, profile: Profile, width: nat, height: nat)
    requires 0 < i < |cs| - 1 && GoodHere(cs, i, profile, width, height) && Unended(cs[..|cs| - 1])
    ensures cs[i].kind != IHDR && cs[i].kind != IEND && |cs[i].kind| == 4
    ensures profile.Qt? ==> cs[i].kind == IDAT || cs[i].kind[0] % 64 >= 32
  {
    assert cs[..|cs| - 1][i] == cs[i];
  }

  lemma InOrderThen(cs: seq<Chunk>, profile: Profile, width: nat, height: nat)
    requires cs != [] && cs[|cs| - 1].kind == IEND && Unended(cs[..|cs| - 1]) && Consecutive(cs)
    requires forall i :: 0 <= i < |cs| ==> GoodHere(cs, i, profile, width, height)
    requires exists i :: 0 <= i < |cs| && IsIdat(cs[i])
    ensures InOrder(cs, profile) && HeaderFits(cs[0].payload, profile, width, height)
  {
    var k, last :| 0 <= k < |cs| && IsIdat(cs[k]) && last == |cs| - 1;
    assert GoodHere(cs, 0, profile, width, height) && GoodHere(cs, last, profile, width, height);
    assert IDAT[1] != IHDR[1] && IDAT[1] != IEND[1] && 0 < k < last;
    forall i | 0 <= i < |cs| ensures |cs[i].kind| == 4 && |cs[i].payload| < WORD {
      assert GoodHere(cs, i, profile, width, height);
    }
    forall i | 0 < i < last
      ensures cs[i].kind != IHDR && cs[i].kind != IEND
      ensures profile.Qt? ==> cs[i].kind == IDAT || cs[i].kind[0] % 64 >= 32
    {
      BetweenEnds(cs, i, profile, width, height);
    }
    ConsecutiveMeans(cs);
  }

  lemma ConsecutiveMeans(cs: seq<Chunk>)
    ensures Consecutive(cs) <==>
            forall i, j, k :: 0 <= i < j < k < |cs| && cs[i].kind == IDAT && cs[k].kind == IDAT ==> cs[j].kind == IDAT
  {
    if Consecutive(cs) {
      forall i, j, k | 0 <= i < j < k < |cs| && cs[i].kind == IDAT && cs[k].kind == IDAT ensures cs[j].kind == IDAT {
        assert IsIdat(cs[i]) && IsIdat(cs[k]) && IsIdat(cs[j]);
      }
    }
  }

  lemma GoodInOrder(cs: seq<Chunk>, i: nat, profile: Profile, width: nat, height: nat)
    requires i < |cs| && InOrder(cs, profile) && HeaderFits(cs[0].payload, profile, width, height)
    ensures GoodHere(cs, i, profile, width, height)
  {
    assert IEND[1] != IHDR[1];
  }

  lemma UnendedInOrder(cs: seq<Chunk>, profile: Profile)
    requires InOrder(cs, profile)
    ensures Unended(cs[..|cs| - 1]) && Consecutive(cs) && exists i :: 0 <= i < |cs| && IsIdat(cs[i])
  {
    var before := cs[..|cs| - 1];
    forall i | 0 <= i < |before| ensures before[i].kind != IEND {
      assert before[i] == cs[i] && IEND[1] != IHDR[1];
    }
    ConsecutiveMeans(cs);
    var k :| 0 <= k < |cs| && cs[k].kind == IDAT;
    assert IsIdat(cs[k]);
  }

  /** What the validator describes is exactly a screenshot. */
  lemma DescribesMeans(z: Zlib, cs: seq<Chunk>, data: seq<byte>, profile: Profile, width: nat, height: nat)
    requires 0 < width < WORD && 0 < height < WORD
    ensures Describes(z, cs, data, profile, width, height) <==> Screenshot(z, cs, data, profile, width, height)
  {
    WellFormedMeans(cs, profile, width, height);
    CompressedMeans(cs);
    if InOrder(cs, profile) {
      HeaderMeans(cs[0].payload, profile, width, height);
      if HeaderFits(cs[0].payload, profile, width, height) {
        ImageMeans(z, cs, profile, width, height);
      }
    }
  }

  lemma ImageMeans(z: Zlib, cs: seq<Chunk>, profile: Profile, width: nat, height: nat)
    requires 0 < width < WORD && 0 < height < WORD && cs != [] && HeaderFits(cs[0].payload, profile, width, height)
    ensures Image(z, Compressed(cs), RowBytes(cs[0].payload, width), height, profile) <==>
            || Painted(z, cs, profile, width, height, 3)
            || (profile.Qt? && Painted(z, cs, profile, width, height, 4))
  {
    CompressedMeans(cs);
    HeaderMeans(cs[0].payload, profile, width, height);
    RowBytesMean(cs[0].payload, width, height);
    RowsMean(z, ImageData(cs), RowBytes(cs[0].payload, width), height, profile);
  }

  lemma RowBytesMean(payload: seq<byte>, width: nat, height: nat)
    ensures payload == HeaderOf(width, height, 3) ==> RowBytes(payload, width) == RowSize(3, width)
    ensures payload == HeaderOf(width, height, 4) ==> RowBytes(payload, width) == RowSize(4, width)
    ensures HeaderOf(width, height, 3) != HeaderOf(width, height, 4)
  {
  }

  lemma RowsMean(z: Zlib, compressed: seq<byte>, size: nat, height: nat, profile: Profile)
    requires size > 0
    ensures Image(z, compressed, size, height, profile) <==>
            PixelRows(z.inflate(compressed), size, height, if profile.Drm? then 0 else 4)
  {
    var raw := z.inflate(compressed);
    if raw.Some? && |raw.value| == size * height {
      RowsFitMeans(raw.value, size, height, profile);
    }
  }

  // The validator's loops.

  /** The tests on the next chunk; `first` and `closed` are what the loop remembers of the chunks before it. */
  method Examine(z: Zlib, ghost done: seq<Chunk>, rest: seq<byte>, first: bool, closed: bool,
                 profile: Profile, width: nat, height: nat)
    returns (ok: bool, c: Chunk)
    requires first == (done == []) && closed == Closed(done) && rest != []
    ensures ok <==> Usable(z, done, rest, profile, width, height)
    ensures ok ==> c == ChunkAt(rest)
  {
    c := Chunk([], []);
    if |rest| < 12 { return false, c; }
    var length := BigEndian32(rest);
    if 12 + length > |rest| { return false, c; }
    c := Chunk(rest[4..8], rest[8..8 + length]);
    if Checksum(z, c) != BigEndian32(rest[8 + length..]) { return false, c; }
    if first {
      if c.kind != IHDR || !HeaderFits(c.payload, profile, width, height) { return false, c; }
    } else if c.kind == IHDR {
      return false, c;
    }
    if !Known(c, profile) { return false, c; }
    if IsIdat(c) && closed { return false, c; }
    if c.kind == IEND && (length != 0 || 12 + length != |rest|) { return false, c; }
    SerializedRead(z, rest);
    ok := true;
  }

  lemma EndBytes(z: Zlib)
    requires Lawful(z)
    ensures Serialized(z, Chunk(IEND, [])) == ENDING
  {
    var c := Chunk(IEND, []);
    assert c.kind + c.payload == IEND;
    assert Checksum(z, c) == 0xAE42_6082;
    assert EncodeU32(0xAE42_6082) == [0xAE, 0x42, 0x60, 0x82] && EncodeU32(0) == [0, 0, 0, 0];
  }

  lemma Ended(z: Zlib, done: seq<Chunk>)
    requires Lawful(z) && done != [] && done[|done| - 1] == Chunk(IEND, [])
    ensures EndsWith(SIGNATURE + SerializedAll(z, done), ENDING)
  {
    var last := |done| - 1;
    var front := SerializedAll(z, done[..last]);
    EndBytes(z);
    assert done == done[..last] + [done[last]];
    SerializedMore(z, done[..last], done[last]);
    assert SIGNATURE + SerializedAll(z, done) == (SIGNATURE + front) + ENDING;
  }

  /** What the loop remembers of the chunks it has read. */
  datatype Notes = Notes(index: nat, closed: bool, started: bool, ended: bool, compressed: seq<byte>, header: seq<byte>)

  ghost predicate Noted(n: Notes, done: seq<Chunk>) {
    && n.index == |done| && n.closed == Closed(done) && n.started == HasIdat(done) && n.compressed == Compressed(done)
    && (done != [] ==> n.header == done[0].payload)
    && (if n.ended then done != [] && done[|done| - 1].kind == IEND && Unended(done[..|done| - 1]) else Unended(done))
  }

  function Note(n: Notes, c: Chunk): Notes {
    Notes(n.index + 1, n.closed || (n.started && !IsIdat(c)), n.started || IsIdat(c), n.ended || c.kind == IEND,
          n.compressed + (if IsIdat(c) then c.payload else []), if n.index == 0 then c.payload else n.header)
  }

  lemma NotedNext(n: Notes, done: seq<Chunk>, c: Chunk, profile: Profile, width: nat, height: nat)
    requires Noted(n, done) && !n.ended
    requires GoodAll(done, profile, width, height) && GoodNext(done, c, profile, width, height)
    ensures Noted(Note(n, c), done + [c]) && GoodAll(done + [c], profile, width, height)
  {
    assert (done + [c])[..|done|] == done;
  }

  /** The file as far as it has been read. */
  ghost predicate ReadSoFar(z: Zlib, data: seq<byte>, offset: nat, done: seq<Chunk>) {
    offset <= |data| && data[..offset] == SIGNATURE + SerializedAll(z, done)
  }

  lemma ReadOn(z: Zlib, data: seq<byte>, offset: nat, done: seq<Chunk>)
    requires ReadSoFar(z, data, offset, done) && Readable(z, data[offset..])
    ensures var c := ChunkAt(data[offset..]); ReadSoFar(z, data, offset + 12 + |c.payload|, done + [c])
  {
    var rest := data[offset..];
    var c := ChunkAt(rest);
    var n := 12 + |c.payload|;
    SerializedRead(z, rest);
    SerializedMore(z, done, c);
    TakenMore(data, offset, n);
    Associate(SIGNATURE, SerializedAll(z, done), Serialized(z, c));
  }

  lemma TakenMore(data: seq<byte>, offset: nat, n: nat)
    requires offset + n <= |data|
    ensures data[..offset + n] == data[..offset] + data[offset..][..n]
  {
  }

  /** The validator's walk over the chunks of a file that has the signature. */
  method WalkChunks(z: Zlib, data: seq<byte>, profile: Profile, width: nat, height: nat)
    returns (ok: bool, notes: Notes, ghost done: seq<Chunk>)
    requires SIGNATURE <= data
    ensures ok ==> ReadSoFar(z, data, |data|, done) && Noted(notes, done) && GoodAll(done, profile, width, height)
    ensures !ok ==> forall cs :: !Describes(z, cs, data, profile, width, height)
  {
    var offset := |SIGNATURE|;
    notes, done := Notes(0, false, false, false, [], []), [];
    assert data[..offset] == SIGNATURE + [];
    while offset < |data|
      invariant ReadSoFar(z, data, offset, done) && Noted(notes, done) && GoodAll(done, profile, width, height)
      invariant notes.ended ==> offset == |data|
    {
      ok, offset, notes, done := NextChunk(z, data, offset, notes, done, profile, width, height);
      if !ok { return; }
    }
    ok := true;
  }

  lemma Behind(data: seq<byte>, offset: nat, front: seq<byte>, whole: seq<byte>)
    requires offset <= |data| && data[..offset] == SIGNATURE + front && data == SIGNATURE + whole
    ensures front + data[offset..] == whole
  {
    assert data == data[..offset] + data[offset..];
    assert whole == data[8..] && front == data[..offset][8..];
  }

  lemma NotDescribed(z: Zlib, data: seq<byte>, offset: nat, done: seq<Chunk>, cs: seq<Chunk>,
                     profile: Profile, width: nat, height: nat)
    requires ReadSoFar(z, data, offset, done) && GoodAll(done, profile, width, height) && offset < |data|
    requires !Usable(z, done, data[offset..], profile, width, height)
    ensures !Describes(z, cs, data, profile, width, height)
  {
    if Describes(z, cs, data, profile, width, height) {
      Behind(data, offset, SerializedAll(z, done), SerializedAll(z, cs));
      Continues(z, done, data[offset..], cs, profile, width, height);
    }
  }

  lemma NoneDescribes(z: Zlib, data: seq<byte>, offset: nat, done: seq<Chunk>,
                      profile: Profile, width: nat, height: nat)
    requires ReadSoFar(z, data, offset, done) && GoodAll(done, profile, width, height) && offset < |data|
    requires !Usable(z, done, data[offset..], profile, width, height)
    ensures forall cs :: !Describes(z, cs, data, profile, width, height)
  {
    forall cs ensures !Describes(z, cs, data, profile, width, height) {
      NotDescribed(z, data, offset, done, cs, profile, width, height);
    }
  }

  /** A usable chunk more has been read. */
  lemma OneMore(z: Zlib, data: seq<byte>, offset: nat, notes: Notes, done: seq<Chunk>, c: Chunk,
                profile: Profile, width: nat, height: nat)
    requires ReadSoFar(z, data, offset, done) && Noted(notes, done) && GoodAll(done, profile, width, height)
    requires offset < |data| && !notes.ended
    requires Usable(z, done, data[offset..], profile, width, height) && c == ChunkAt(data[offset..])
    ensures ReadSoFar(z, data, offset + 12 + |c.payload|, done + [c])
    ensures Noted(Note(notes, c), done + [c]) && GoodAll(done + [c], profile, width, height)
    ensures Note(notes, c).ended ==> offset + 12 + |c.payload| == |data|
  {
    ReadOn(z, data, offset, done);
    NotedNext(notes, done, c, profile, width, height);
  }

  method NextChunk(z: Zlib, data: seq<byte>, offset: nat, notes: Notes, ghost done: seq<Chunk>,
                   profile: Profile, width: nat, height: nat)
    returns (ok: bool, further: nat, more: Notes, ghost all: seq<Chunk>)
    requires ReadSoFar(z, data, offset, done) && Noted(notes, done) && GoodAll(done, profile, width, height)
    requires offset < |data| && !notes.ended
    ensures ok ==> ReadSoFar(z, data, further, all) && Noted(more, all) && GoodAll(all, profile, width, height)
    ensures ok ==> offset < further && (more.ended ==> further == |data|)
    ensures !ok ==> forall cs :: !Describes(z, cs, data, profile, width, height)
  {
    var rest, c := data[offset..], Chunk([], []);
    ok, c := Examine(z, done, rest, notes.index == 0, notes.closed, profile, width, height);
    further, more, all := offset, notes, done;
    if !ok {
      NoneDescribes(z, data, offset, done, profile, width, height);
      return;
    }
    OneMore(z, data, offset, notes, done, c, profile, width, height);
    further, more, all := offset + 12 + |c.payload|, Note(notes, c), done + [c];
  }

  method CheckRows(raw: seq<byte>, rowBytes: nat, rows: nat, profile: Profile) returns (ok: bool)
    requires rowBytes > 0 && |raw| == rowBytes * rows
    ensures ok <==> RowsFit(raw, rowBytes, rows, profile)
  {
    var row := 0;
    while row < rows
      invariant 0 <= row <= rows && rowBytes * row <= |raw|
      invariant RowsFit(raw, rowBytes, row, profile)
    {
      RowStarts(raw, rowBytes, row, rows);
      if !FilterFits(raw[rowBytes * row], profile) {
        RowsFitPrefix(raw, rowBytes, row + 1, rows, profile);
        return false;
      }
      row := row + 1;
    }
    ok := true;
  }

  lemma RowStarts(raw: seq<byte>, rowBytes: nat, row: nat, rows: nat)
    requires row < rows && |raw| == rowBytes * rows && rowBytes > 0
    ensures rowBytes * row < rowBytes * (row + 1) <= |raw|
  {
    Product(rowBytes, row + 1);
    Within(rowBytes, row, rows);
  }

  lemma {:induction false} RowsFitPrefix(raw: seq<byte>, rowBytes: nat, few: nat, rows: nat, profile: Profile)
    requires few <= rows && rowBytes * rows <= |raw| && rowBytes > 0
    ensures rowBytes * few <= |raw|
    ensures RowsFit(raw, rowBytes, rows, profile) ==> RowsFit(raw, rowBytes, few, profile)
    decreases rows
  {
    if few < rows {
      assert rowBytes * rows == rowBytes * (rows - 1) + rowBytes;
      RowsFitPrefix(raw, rowBytes, few, rows - 1, profile);
    }
  }

  /** The validator accepts exactly the files that some well-formed sequence of chunks and some image make up. */
  method Validate(z: Zlib, data: seq<byte>, profile: Profile, width: nat, height: nat) returns (ok: bool)
    requires Lawful(z)
    ensures ok <==> && 0 < width <= 4096 && 0 < height <= 4096 && width * height <= 4194304
                    && (profile.Drm? ==> width == 1024 && height == 768)
                    && exists cs :: Screenshot(z, cs, data, profile, width, height)
  {
    if !(0 < width <= SIDE_LIMIT && 0 < height <= SIDE_LIMIT && width * height <= AREA_LIMIT) { return false; }
    if profile.Drm? && (width != WIDTH || height != HEIGHT) { return false; }
    if !(SIGNATURE <= data) { return false; }
    ghost var done;
    var walked, notes;
    walked, notes, done := WalkChunks(z, data, profile, width, height);
    if !walked {
      NoScreenshot(z, data, profile, width, height);
      return false;
    }
    assert data[..|data|] == data;
    DescribedIsScreenshot(z, done, data, profile, width, height);
    if notes.ended { EndIsEmpty(done, profile, width, height); Ended(z, done); }
    if !notes.started || !notes.ended || !EndsWith(data, ENDING) { return false; }
    GoodAt(done, 0, profile, width, height);
    var rowBytes := RowBytes(notes.header, width);
    var raw := z.inflate(notes.compressed);
    if raw.None? || |raw.value| != rowBytes * height { return false; }
    ok := CheckRows(raw.value, rowBytes, height, profile);
  }

  lemma EndIsEmpty(done: seq<Chunk>, profile: Profile, width: nat, height: nat)
    requires GoodAll(done, profile, width, height) && done != [] && done[|done| - 1].kind == IEND
    ensures done[|done| - 1] == Chunk(IEND, [])
  {
  }

  lemma OnlyDescription(z: Zlib, done: seq<Chunk>, data: seq<byte>, profile: Profile, width: nat, height: nat)
    requires data == SIGNATURE + SerializedAll(z, done) && GoodAll(done, profile, width, height)
    ensures (exists cs :: Describes(z, cs, data, profile, width, height))
            <==> Describes(z, done, data, profile, width, height)
  {
    if cs :| Describes(z, cs, data, profile, width, height) {
      GoodFits(cs, profile, width, height);
      GoodFits(done, profile, width, height);
      assert SerializedAll(z, cs) == data[8..] == SerializedAll(z, done);
      SplitUnique(z, cs, done);
    }
  }

  lemma NoScreenshot(z: Zlib, data: seq<byte>, profile: Profile, width: nat, height: nat)
    requires 0 < width < WORD && 0 < height < WORD
    requires forall cs :: !Describes(z, cs, data, profile, width, height)
    ensures forall cs :: !Screenshot(z, cs, data, profile, width, height)
  {
    forall cs ensures !Screenshot(z, cs, data, profile, width, height) {
      DescribesMeans(z, cs, data, profile, width, height);
    }
  }

  lemma DescribedIsScreenshot(z: Zlib, done: seq<Chunk>, data: seq<byte>, profile: Profile, width: nat, height: nat)
    requires 0 < width < WORD && 0 < height < WORD
    requires data == SIGNATURE + SerializedAll(z, done) && GoodAll(done, profile, width, height)
    ensures (exists cs :: Screenshot(z, cs, data, profile, width, height))
            <==> Describes(z, done, data, profile, width, height)
  {
    OnlyDescription(z, done, data, profile, width, height);
    DescribesMeans(z, done, data, profile, width, height);
    if cs :| Screenshot(z, cs, data, profile, width, height) {
      DescribesMeans(z, cs, data, profile, width, height);
    }
  }

  // The writer: pixels, rows, file.

  ghost function PixelOf(memory: seq<byte>, pixel: nat): (r: seq<byte>)
    requires pixel + 4 <= |memory|
    ensures |r| == 3
  {
    [memory[pixel + 2], memory[pixel + 1], memory[pixel]]
  }

  /** One row of pixels: blue, green, red and an unused byte become red, green, blue. */
  ghost function RowOf(memory: seq<byte>, at: nat, columns: nat): (r: seq<byte>)
    requires at + 4 * columns <= |memory|
    ensures |r| == 3 * columns
  {
    if columns == 0 then []
    else RowOf(memory, at, columns - 1) + PixelOf(memory, at + 4 * (columns - 1))
  }

  /** Rows that start a pitch apart. */
  ghost function Picture(memory: seq<byte>, at: nat, pitch: nat, width: nat, rows: nat): seq<byte>
    requires 4 * width <= pitch && at + pitch * rows <= |memory|
  {
    if rows == 0 then []
    else
      Product(pitch, rows);
      Picture(memory, at, pitch, width, rows - 1) + RowOf(memory, at + pitch * (rows - 1), width)
  }

  lemma Product(a: nat, n: nat)
    requires n > 0
    ensures a * n == a * (n - 1) + a && a * (n - 1) >= 0
  {
  }

  lemma {:induction false} PictureSize(memory: seq<byte>, at: nat, pitch: nat, width: nat, rows: nat)
    requires 4 * width <= pitch && at + pitch * rows <= |memory|
    ensures |Picture(memory, at, pitch, width, rows)| == 3 * width * rows
  {
    if rows > 0 {
      Product(pitch, rows);
      Product(3 * width, rows);
      PictureSize(memory, at, pitch, width, rows - 1);
    }
  }

  lemma {:induction false} RowAt(memory: seq<byte>, at: nat, columns: nat, column: nat, channel: nat, place: int)
    requires at + 4 * columns <= |memory| && column < columns && channel < 3
    requires place == at + 4 * column + 2 - channel
    ensures 0 <= place < |memory| && RowOf(memory, at, columns)[3 * column + channel] == memory[place]
  {
    if column < columns - 1 {
      RowAt(memory, at, columns - 1, column, channel, place);
    }
  }

  /** Every channel of every pixel, at index i of the picture, comes from its place in the padded memory. */
  lemma {:induction false} PictureAt(memory: seq<byte>, at: nat, pitch: nat, width: nat, rows: nat,
                                     row: nat, column: nat, channel: nat, i: int, place: int)
    requires 4 * width <= pitch && at + pitch * rows <= |memory| && row < rows && column < width && channel < 3
    requires i == 3 * width * row + 3 * column + channel
    requires place == at + pitch * row + 4 * column + 2 - channel
    ensures 0 <= i < |Picture(memory, at, pitch, width, rows)| && 0 <= place < |memory|
    ensures Picture(memory, at, pitch, width, rows)[i] == memory[place]
  {
    PictureParts(memory, at, pitch, width, rows);
    var picture, before := Picture(memory, at, pitch, width, rows), Picture(memory, at, pitch, width, rows - 1);
    var last := RowOf(memory, at + pitch * (rows - 1), width);
    if row < rows - 1 {
      PictureAt(memory, at, pitch, width, rows - 1, row, column, channel, i, place);
      InFront(picture, before, last, i);
    } else {
      RowAt(memory, at + pitch * (rows - 1), width, column, channel, place);
      AtEnd(picture, before, last, i, 3 * column + channel);
    }
  }

  lemma InFront(whole: seq<byte>, before: seq<byte>, last: seq<byte>, i: nat)
    requires whole == before + last && i < |before|
    ensures whole[i] == before[i]
  {
  }

  lemma AtEnd(whole: seq<byte>, before: seq<byte>, last: seq<byte>, i: int, k: nat)
    requires whole == before + last && k < |last| && i == |before| + k
    ensures whole[i] == last[k]
  {
  }

  /** All rows but the last, then the last. */
  lemma PictureParts(memory: seq<byte>, at: nat, pitch: nat, width: nat, rows: nat)
    requires 4 * width <= pitch && at + pitch * rows <= |memory| && rows > 0
    ensures 0 <= at + pitch * (rows - 1) && at + pitch * (rows - 1) + 4 * width <= |memory|
    ensures var before := Picture(memory, at, pitch, width, rows - 1);
            var last := RowOf(memory, at + pitch * (rows - 1), width);
            && Picture(memory, at, pitch, width, rows) == before + last
            && |before| == 3 * width * (rows - 1) >= 0 && |last| == 3 * width
  {
    Product(pitch, rows);
    Product(3 * width, rows);
    PictureSize(memory, at, pitch, width, rows - 1);
  }

  /** The rows of a picture, each behind the filter byte 0. */
  ghost function Filtered(rgb: seq<byte>, rowSize: nat, rows: nat): seq<byte>
    requires rowSize * rows <= |rgb|
  {
    if rows == 0 then []
    else
      Product(rowSize, rows);
      Filtered(rgb, rowSize, rows - 1) + [0] + rgb[rowSize * (rows - 1)..rowSize * (rows - 1) + rowSize]
  }

  /** The rows of an image without their filter bytes. */
  ghost function Unfiltered(raw: seq<byte>, rowSize: nat, rows: nat): seq<byte>
    requires (rowSize + 1) * rows <= |raw|
  {
    if rows == 0 then []
    else
      Product(rowSize + 1, rows);
      Unfiltered(raw, rowSize, rows - 1) + raw[(rowSize + 1) * (rows - 1) + 1..(rowSize + 1) * (rows - 1) + 1 + rowSize]
  }

  lemma {:induction false} FilteredSize(rgb: seq<byte>, rowSize: nat, rows: nat)
    requires rowSize * rows <= |rgb|
    ensures |Filtered(rgb, rowSize, rows)| == (rowSize + 1) * rows
  {
    if rows > 0 {
      Product(rowSize, rows);
      Product(rowSize + 1, rows);
      FilteredSize(rgb, rowSize, rows - 1);
    }
  }

  /** Only the bytes of the first rows matter to what is made of the first rows. */
  lemma {:induction false} UnfilteredPrefix(raw: seq<byte>, more: seq<byte>, rowSize: nat, rows: nat)
    requires raw <= more && (rowSize + 1) * rows <= |raw|
    ensures Unfiltered(more, rowSize, rows) == Unfiltered(raw, rowSize, rows)
  {
    if rows > 0 {
      Product(rowSize + 1, rows);
      UnfilteredPrefix(raw, more, rowSize, rows - 1);
    }
  }

  lemma {:induction false} RowsFitMore(raw: seq<byte>, more: seq<byte>, rowBytes: nat, rows: nat, profile: Profile)
    requires raw <= more && rowBytes * rows <= |raw| && rowBytes > 0
    ensures RowsFit(more, rowBytes, rows, profile) <==> RowsFit(raw, rowBytes, rows, profile)
  {
    if rows > 0 {
      Product(rowBytes, rows);
      RowsFitMore(raw, more, rowBytes, rows - 1, profile);
    }
  }

  lemma LastRow(rgb: seq<byte>, rowSize: nat, rows: nat)
    requires rows > 0 && rowSize * rows <= |rgb|
    ensures 0 <= rowSize * (rows - 1) <= rowSize * rows == rowSize * (rows - 1) + rowSize
    ensures rgb[..rowSize * rows] == rgb[..rowSize * (rows - 1)] + rgb[rowSize * (rows - 1)..rowSize * rows]
    ensures Filtered(rgb, rowSize, rows)
         == Filtered(rgb, rowSize, rows - 1) + [0] + rgb[rowSize * (rows - 1)..rowSize * rows]
  {
    Product(rowSize, rows);
    Cut(rgb, rowSize * (rows - 1), rowSize * rows);
  }

  /** Filtering adds one fitting byte to every row and loses nothing. */
  lemma {:induction false} FilteredRoundTrip(rgb: seq<byte>, rowSize: nat, rows: nat, profile: Profile)
    requires rowSize * rows <= |rgb|
    ensures |Filtered(rgb, rowSize, rows)| == (rowSize + 1) * rows
    ensures Unfiltered(Filtered(rgb, rowSize, rows), rowSize, rows) == rgb[..rowSize * rows]
    ensures RowsFit(Filtered(rgb, rowSize, rows), rowSize + 1, rows, profile)
  {
    FilteredSize(rgb, rowSize, rows);
    if rows > 0 {
      LastRow(rgb, rowSize, rows);
      FilteredRoundTrip(rgb, rowSize, rows - 1, profile);
      var row := rgb[rowSize * (rows - 1)..rowSize * rows];
      RowBehind(Filtered(rgb, rowSize, rows - 1), row, rowSize, rows, profile);
    }
  }

  /** What a row behind a filter byte adds to an image. */
  lemma RowBehind(before: seq<byte>, row: seq<byte>, rowSize: nat, rows: nat, profile: Profile)
    requires rows > 0 && |before| == (rowSize + 1) * (rows - 1) && |row| == rowSize
    ensures var raw := before + [0] + row;
            && |raw| == (rowSize + 1) * rows
            && Unfiltered(raw, rowSize, rows) == Unfiltered(before, rowSize, rows - 1) + row
            && (RowsFit(before, rowSize + 1, rows - 1, profile) ==> RowsFit(raw, rowSize + 1, rows, profile))
  {
    Product(rowSize + 1, rows);
    Appended(before, row);
    UnfilteredPrefix(before, before + [0] + row, rowSize, rows - 1);
    RowsFitMore(before, before + [0] + row, rowSize + 1, rows - 1, profile);
  }

  lemma Appended(before: seq<byte>, row: seq<byte>)
    ensures var raw := before + [0] + row;
            raw[|before|] == 0 && raw[|before| + 1..|before| + 1 + |row|] == row && before <= raw
  {
  }

  function HeaderBytes(width: nat, height: nat): seq<byte> {
    EncodeU32(width) + EncodeU32(height) + [8, 2, 0, 0, 0]
  }

  ghost function FileChunks(z: Zlib, rgb: seq<byte>, width: nat, height: nat): seq<Chunk>
    requires |rgb| == 3 * width * height
  {
    [Chunk(IHDR, HeaderBytes(width, height)), Chunk(IDAT, z.deflate(Filtered(rgb, 3 * width, height))), Chunk(IEND, [])]
  }

  ghost function File(z: Zlib, rgb: seq<byte>, width: nat, height: nat): seq<byte>
    requires |rgb| == 3 * width * height
  {
    SIGNATURE + SerializedAll(z, FileChunks(z, rgb, width, height))
  }

  /** Within the validator's bounds the compressed image always fits the writer's buffer and a chunk. */
  lemma CompressedFits(width: nat, height: nat)
    requires Bounded(Qt, width, height)
    ensures 0 < (3 * width + 1) * height && 0 < CompressBound((3 * width + 1) * height) <= MAX_BUFFER
  {
    assert (3 * width + 1) * height == 3 * (width * height) + height;
  }

  lemma HeaderFitsBytes(width: nat, height: nat, profile: Profile)
    requires width < WORD && height < WORD
    ensures HeaderFits(HeaderBytes(width, height), profile, width, height)
  {
    var p := HeaderBytes(width, height);
    DecodeEncodeU32(width);
    DecodeEncodeU32(height);
    assert p[..4] == EncodeU32(width) && p[4..][..4] == EncodeU32(height);
    assert BigEndian32(p) == BigEndian32(p[..4]) && BigEndian32(p[4..]) == BigEndian32(p[4..][..4]);
  }

  lemma HeaderIsGood(width: nat, height: nat, profile: Profile)
    requires width < WORD && height < WORD
    ensures GoodNext([], Chunk(IHDR, HeaderBytes(width, height)), profile, width, height)
  {
    HeaderFitsBytes(width, height, profile);
    assert !Closed([]);
  }

  lemma ThreeChunks(header: Chunk, image: Chunk, end: Chunk, profile: Profile, width: nat, height: nat)
    requires GoodNext([], header, profile, width, height) && Fits(image) && image.kind == IDAT && end == Chunk(IEND, [])
    ensures var cs := [header, image, end]; WellFormed(cs, profile, width, height) && Compressed(cs) == image.payload
  {
    var cs := [header, image, end];
    assert cs[..2] == [header, image] && cs[..2][..1] == [header] && cs[..2][..1][..0] == [];
    assert !IsIdat(header) && IsIdat(image) && !IsIdat(end);
    assert !HasIdat([]) && !Closed([]) && !HasIdat([header]) && !Closed([header]);
    assert GoodAll([header], profile, width, height);
    assert HasIdat([header, image]) && !Closed([header, image]) && GoodAll([header, image], profile, width, height);
    assert Compressed([]) == [] && Compressed([header]) == [] && Compressed([header, image]) == [] + image.payload;
    assert Compressed(cs) == image.payload + [];
  }

  /**
   Every file the writer makes within the validator's bounds is accepted by the validator, and its image without
   the filter bytes is the picture.
   */
  lemma WrittenIsAccepted(z: Zlib, rgb: seq<byte>, width: nat, height: nat, profile: Profile)
    requires Lawful(z) && Bounded(profile, width, height) && |rgb| == 3 * width * height
    ensures var cs := FileChunks(z, rgb, width, height);
            && Describes(z, cs, File(z, rgb, width, height), profile, width, height)
            && var raw := z.inflate(Compressed(cs));
               raw.Some? && |raw.value| == (3 * width + 1) * height && Unfiltered(raw.value, 3 * width, height) == rgb
  {
    var cs := FileChunks(z, rgb, width, height);
    HeaderIsGood(width, height, profile);
    ImageIsAccepted(z, rgb, width, height, profile);
    ThreeChunks(cs[0], cs[1], cs[2], profile, width, height);
    assert cs == [cs[0], cs[1], cs[2]];
    PutTogether(z, cs, File(z, rgb, width, height), profile, width, height);
  }

  /** Three-byte pixels, as the header says. */
  lemma PutTogether(z: Zlib, cs: seq<Chunk>, data: seq<byte>, profile: Profile, width: nat, height: nat)
    requires data == SIGNATURE + SerializedAll(z, cs) && WellFormed(cs, profile, width, height)
    requires cs[0].payload == HeaderBytes(width, height) && Image(z, Compressed(cs), 3 * width + 1, height, profile)
    ensures Describes(z, cs, data, profile, width, height)
  {
    assert Header(cs, profile, width, height) == HeaderBytes(width, height) && HeaderBytes(width, height)[9] == 2;
  }

  lemma ImageIsAccepted(z: Zlib, rgb: seq<byte>, width: nat, height: nat, profile: Profile)
    requires Lawful(z) && Bounded(profile, width, height) && |rgb| == 3 * width * height
    ensures var compressed := z.deflate(Filtered(rgb, 3 * width, height));
            && |compressed| < WORD && Image(z, compressed, 3 * width + 1, height, profile)
            && Unfiltered(z.inflate(compressed).value, 3 * width, height) == rgb
  {
    CompressedFits(width, height);
    ImageOfRows(z, rgb, 3 * width, height, profile);
  }

  lemma ImageOfRows(z: Zlib, rgb: seq<byte>, size: nat, rows: nat, profile: Profile)
    requires Lawful(z) && |rgb| == size * rows
    requires 0 < (size + 1) * rows && 0 < CompressBound((size + 1) * rows) <= MAX_BUFFER
    ensures var compressed := z.deflate(Filtered(rgb, size, rows));
            && |compressed| < WORD && Image(z, compressed, size + 1, rows, profile)
            && Unfiltered(z.inflate(compressed).value, size, rows) == rgb
  {
    FilteredRoundTrip(rgb, size, rows, profile);
    assert rgb[..size * rows] == rgb;
  }

  /** Standard output, which may take less than it is given. */
  class Output {
    var bytes: seq<byte>
    var faults: nat

    constructor ()
      ensures bytes == [] && faults == 0
    {
      bytes, faults := [], 0;
    }

    method WriteAll(data: seq<byte>) returns (ok: bool)
      modifies this
      ensures old(faults) <= faults && (ok <==> faults == old(faults))
      ensures ok ==> bytes == old(bytes) + data
    {
      var cursor := 0;
      while cursor < |data|
        invariant 0 <= cursor <= |data| && faults == old(faults) && bytes == old(bytes) + data[..cursor]
      {
        var failed: bool, written: nat := *, *;
        if failed || written == 0 {
          faults := faults + 1;
          return false;
        }
        var taken := if written <= |data| - cursor then written else |data| - cursor;
        assert data[..cursor + taken] == data[..cursor] + data[cursor..cursor + taken];
        bytes := bytes + data[cursor..cursor + taken];
        cursor := cursor + taken;
      }
      assert data[..cursor] == data;
      ok := true;
    }

    method WriteChunk(z: Zlib, c: Chunk) returns (ok: bool)
      modifies this
      ensures old(faults) <= faults && (ok <==> faults == old(faults))
      ensures ok ==> bytes == old(bytes) + Serialized(z, c)
    {
      ok := WriteAll(EncodeU32(|c.payload|));
      if ok { ok := WriteAll(c.kind); }
      if ok && |c.payload| > 0 { ok := WriteAll(c.payload); }
      if ok { ok := WriteAll(EncodeU32(Checksum(z, c))); }
    }

    /** Writes a picture whose buffer the writer can hold; within the bounds only the output can fail. */
    method WritePng(z: Zlib, rgb: array<byte>, width: nat, height: nat) returns (ok: bool)
      requires Lawful(z) && Bounded(Qt, width, height) && rgb.Length == 3 * width * height
      modifies this
      ensures old(faults) <= faults && (ok <==> faults == old(faults))
      ensures ok ==> bytes == old(bytes) + File(z, rgb[..], width, height)
    {
      var filtered := FilterRows(rgb, 3 * width, height);
      CompressedFits(width, height);
      FilteredSize(rgb[..], 3 * width, height);
      var compressed := z.deflate(filtered[..]);
      ok := WriteFile(z, [Chunk(IHDR, HeaderBytes(width, height)), Chunk(IDAT, compressed), Chunk(IEND, [])]);
    }

    method WriteFile(z: Zlib, cs: seq<Chunk>) returns (ok: bool)
      requires |cs| == 3
      modifies this
      ensures old(faults) <= faults && (ok <==> faults == old(faults))
      ensures ok ==> bytes == old(bytes) + (SIGNATURE + SerializedAll(z, cs))
    {
      ok := WriteAll(SIGNATURE);
      if ok { ok := WriteChunk(z, cs[0]); }
      if ok { ok := WriteChunk(z, cs[1]); }
      if ok { ok := WriteChunk(z, cs[2]); }
      if ok {
        AllThree(z, cs);
        Regroup(old(bytes), SIGNATURE, Serialized(z, cs[0]), Serialized(z, cs[1]), Serialized(z, cs[2]));
        var unsynced: bool := *;
        if unsynced {
          faults := faults + 1;
          ok := false;
        }
      }
    }
  }

  lemma Regroup(a: seq<byte>, b: seq<byte>, c: seq<byte>, d: seq<byte>, e: seq<byte>)
    ensures a + b + c + d + e == a + (b + (c + d + e))
  {
  }

  lemma AllThree(z: Zlib, cs: seq<Chunk>)
    requires |cs| == 3
    ensures SerializedAll(z, cs) == Serialized(z, cs[0]) + Serialized(z, cs[1]) + Serialized(z, cs[2])
  {
    assert cs[1..][0] == cs[1] && cs[1..][1..] == [cs[2]];
    assert SerializedAll(z, [cs[2]]) == Serialized(z, cs[2]) + SerializedAll(z, []);
  }

  method CopyRow(rgb: array<byte>, source: nat, filtered: array<byte>, destination: nat, size: nat)
    requires source + size <= rgb.Length && destination + 1 + size <= filtered.Length && rgb != filtered
    modifies filtered
    ensures filtered[..destination + 1 + size] == old(filtered[..destination]) + ([0] + rgb[source..source + size])
  {
    filtered[destination] := 0;
    for k := 0 to size
      invariant filtered[..destination + 1 + k] == old(filtered[..destination]) + ([0] + rgb[source..source + k])
    {
      filtered[destination + 1 + k] := rgb[source + k];
    }
  }

  lemma NextOfFiltered(rgb: seq<byte>, rowSize: nat, row: nat, rows: nat)
    requires |rgb| == rowSize * rows && row < rows
    ensures rowSize * row + rowSize == rowSize * (row + 1) <= |rgb|
    ensures (rowSize + 1) * row + rowSize + 1 == (rowSize + 1) * (row + 1) <= (rowSize + 1) * rows
    ensures Filtered(rgb, rowSize, row + 1)
            == Filtered(rgb, rowSize, row) + ([0] + rgb[rowSize * row..rowSize * row + rowSize])
  {
    Product(rowSize, row + 1);
    Product(rowSize + 1, row + 1);
    Within(rowSize + 1, row, rows);
    Within(rowSize, row, rows);
  }

  /** Copies the rows of a picture, each behind a filter byte, into a buffer of their own. */
  method FilterRows(rgb: array<byte>, rowSize: nat, rows: nat) returns (filtered: array<byte>)
    requires rgb.Length == rowSize * rows
    ensures fresh(filtered) && filtered[..] == Filtered(rgb[..], rowSize, rows)
  {
    filtered := new byte[(rowSize + 1) * rows];
    FilterInto(rgb, rowSize, rows, filtered);
  }

  method FilterInto(rgb: array<byte>, rowSize: nat, rows: nat, filtered: array<byte>)
    requires rgb != filtered && rgb.Length == rowSize * rows && filtered.Length == (rowSize + 1) * rows
    modifies filtered
    ensures filtered[..] == Filtered(rgb[..], rowSize, rows)
  {
    var row: nat, destination: nat, source: nat := 0, 0, 0;
    while row < rows
      invariant row <= rows && destination == (rowSize + 1) * row <= filtered.Length
      invariant source == rowSize * row <= rgb.Length
      invariant filtered[..destination] == Filtered(rgb[..], rowSize, row)
    {
      NextOfFiltered(rgb[..], rowSize, row, rows);
      CopyRow(rgb, source, filtered, destination, rowSize);
      row, destination, source := row + 1, destination + rowSize + 1, source + rowSize;
    }
    assert filtered[..destination] == filtered[..];
  }

  lemma Cut(s: seq<byte>, a: nat, b: nat)
    requires a <= b <= |s|
    ensures s[..b] == s[..a] + s[a..b]
  {
  }

  lemma {:induction false} Within(size: nat, row: nat, rows: nat)
    requires row < rows
    ensures size * row + size <= size * rows
  {
    Product(size, rows);
    if row < rows - 1 {
      Within(size, row, rows - 1);
    }
  }

  method ConvertRow(memory: seq<byte>, source: nat, rgb: array<byte>, destination: nat, width: nat)
    requires source + 4 * width <= |memory| && destination + 3 * width <= rgb.Length
    modifies rgb
    ensures rgb[..destination + 3 * width] == old(rgb[..destination]) + RowOf(memory, source, width)
  {
    for column := 0 to width
      invariant rgb[..destination + 3 * column] == old(rgb[..destination]) + RowOf(memory, source, column)
    {
      ConvertPixel(memory, source + 4 * column, rgb, destination + 3 * column);
      Associate(old(rgb[..destination]), RowOf(memory, source, column), PixelOf(memory, source + 4 * column));
    }
  }

  method ConvertPixel(memory: seq<byte>, pixel: nat, rgb: array<byte>, at: nat)
    requires pixel + 4 <= |memory| && at + 3 <= rgb.Length
    modifies rgb
    ensures rgb[..at + 3] == old(rgb[..at]) + PixelOf(memory, pixel)
  {
    rgb[at] := memory[pixel + 2];
    rgb[at + 1] := memory[pixel + 1];
    rgb[at + 2] := memory[pixel];
  }

  lemma NextOfPicture(memory: seq<byte>, at: nat, pitch: nat, width: nat, row: nat, rows: nat)
    requires 4 * width <= pitch && at + pitch * rows <= |memory| && row < rows
    ensures at + pitch * row + 4 * width <= |memory| && at + pitch * (row + 1) <= |memory|
    ensures 3 * width * row + 3 * width == 3 * width * (row + 1) <= 3 * width * rows
    ensures pitch * row + pitch == pitch * (row + 1)
    ensures at + pitch * row <= |memory| && Picture(memory, at, pitch, width, row + 1)
            == Picture(memory, at, pitch, width, row) + RowOf(memory, at + pitch * row, width)
  {
    Product(pitch, row + 1);
    Product(3 * width, row + 1);
    Within(pitch, row, rows);
    Within(3 * width, row, rows);
  }

  /** Reads the pixels out of a frame buffer whose rows may be padded. */
  method Convert(memory: seq<byte>, offset: nat, pitch: nat, width: nat, height: nat) returns (rgb: array<byte>)
    requires 4 * width <= pitch && offset + pitch * height <= |memory|
    ensures fresh(rgb) && rgb[..] == Picture(memory, offset, pitch, width, height)
  {
    rgb := new byte[3 * width * height];
    ConvertRows(memory, offset, pitch, width, height, rgb, 3 * width);
  }

  method ConvertRows(memory: seq<byte>, offset: nat, pitch: nat, width: nat, height: nat, rgb: array<byte>, size: nat)
    requires 4 * width <= pitch && offset + pitch * height <= |memory|
    requires size == 3 * width && rgb.Length == size * height
    modifies rgb
    ensures rgb[..] == Picture(memory, offset, pitch, width, height)
  {
    var row: nat, destination: nat, source: nat := 0, 0, offset;
    while row < height
      invariant row <= height && destination == size * row <= rgb.Length && source == offset + pitch * row <= |memory|
      invariant rgb[..destination] == Picture(memory, offset, pitch, width, row)
    {
      ConvertNext(memory, source, rgb, destination, size, offset, pitch, width, row, height);
      row, destination, source := row + 1, destination + size, source + pitch;
    }
    assert rgb[..destination] == rgb[..];
  }

  /** One turn of that loop. */
  method ConvertNext(memory: seq<byte>, source: nat, rgb: array<byte>, destination: nat, size: nat, ghost offset: nat,
                     ghost pitch: nat, width: nat, ghost row: nat, ghost height: nat)
    requires 4 * width <= pitch && offset + pitch * height <= |memory| && row < height && size == 3 * width
    requires rgb.Length == size * height && destination == size * row <= rgb.Length
    requires source == offset + pitch * row <= |memory|
    requires rgb[..destination] == Picture(memory, offset, pitch, width, row)
    modifies rgb
    ensures destination + size == size * (row + 1) <= rgb.Length
    ensures source + pitch == offset + pitch * (row + 1) <= |memory|
    ensures rgb[..destination + size] == Picture(memory, offset, pitch, width, row + 1)
  {
    NextOfPicture(memory, offset, pitch, width, row, height);
    ConvertRow(memory, source, rgb, destination, width);
  }
}

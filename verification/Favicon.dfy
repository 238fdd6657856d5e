/** `faviconIco`: a binary container written with a running offset, and what a reader finds in it. */
module Favicon {
  import opened Sequences

  type byte = n: int | 0 <= n < 256

  // ---------------------------------------------------------------- fixed-width numbers

  function LE16(v: nat): (s: seq<byte>)
    requires v < 0x1_0000
    ensures |s| == 2
  {
    [v % 0x100, v / 0x100]
  }

  function LE32(v: nat): (s: seq<byte>)
    requires v < 0x1_0000_0000
    ensures |s| == 4
  {
    [v % 0x100, v / 0x100 % 0x100, v / 0x100 / 0x100 % 0x100, v / 0x100 / 0x100 / 0x100]
  }

  function ReadLE16(s: seq<byte>, at: nat): nat
    requires at + 2 <= |s|
  {
    s[at] as int + 0x100 * s[at + 1] as int
  }

  function ReadLE32(s: seq<byte>, at: nat): nat
    requires at + 4 <= |s|
  {
    s[at] as int + 0x100 * (s[at + 1] as int + 0x100 * (s[at + 2] as int + 0x100 * s[at + 3] as int))
  }

  function ReadBE32(s: seq<byte>, at: nat): nat
    requires at + 4 <= |s|
  {
    s[at + 3] as int + 0x100 * (s[at + 2] as int + 0x100 * (s[at + 1] as int + 0x100 * s[at] as int))
  }

  lemma LE32RoundTrip(v: nat, s: seq<byte>, at: nat)
    requires v < 0x1_0000_0000 && at + 4 <= |s| && s[at..at + 4] == LE32(v)
    ensures ReadLE32(s, at) == v
  {
  }

  // ---------------------------------------------------------------- what is written

  /** Image width, in the PNG IHDR chunk (section 4.1.1 of RFC 2083). */
  function Width(image: seq<byte>): nat
    requires |image| >= 20
  {
    ReadBE32(image, 16)
  }

  /** Header and directory, then the images in order. */
  function Offset(images: seq<seq<byte>>, k: nat): nat
    requires k <= |images|
  {
    6 + 16 * |images| + |Flatten(images[..k])|
  }

  /** What the buffer writes accept for one image; anything else raises a RangeError. */
  predicate EntryFits(images: seq<seq<byte>>, k: nat)
    requires k < |images|
  {
    && |images[k]| >= 20 && Width(images[k]) <= 256
    && |images[k]| < 0x1_0000_0000 && Offset(images, k) < 0x1_0000_0000
  }

  predicate Fits(images: seq<seq<byte>>) {
    |images| < 0x1_0000 && forall k :: 0 <= k < |images| ==> EntryFits(images, k)
  }

  /** Width twice, with 256 stored as 0 as the format asks; then one plane of 32 bits. */
  function EntryStart(width: nat): (s: seq<byte>)
    requires width <= 256
    ensures |s| == 8
  {
    var w: byte := if width == 256 then 0 else width;
    [w, w, 0, 0] + LE16(1) + LE16(32)
  }

  function Entry(images: seq<seq<byte>>, k: nat): (s: seq<byte>)
    requires k < |images| && EntryFits(images, k)
    ensures |s| == 16
  {
    EntryStart(Width(images[k])) + LE32(|images[k]|) + LE32(Offset(images, k))
  }

  function Entries(images: seq<seq<byte>>, n: nat): (s: seq<byte>)
    requires n <= |images| && forall k :: 0 <= k < n ==> EntryFits(images, k)
    ensures |s| == 16 * n
  {
    if n == 0 then [] else Entries(images, n - 1) + Entry(images, n - 1)
  }

  function Encoded(images: seq<seq<byte>>): seq<byte>
    requires Fits(images)
  {
    [0, 0] + LE16(1) + LE16(|images|) + Entries(images, |images|) + Flatten(images)
  }

  // ---------------------------------------------------------------- the writer

  method WriteUInt16LE(buffer: array<byte>, value: nat, at: nat)
    requires value < 0x1_0000 && at + 2 <= buffer.Length
    modifies buffer
    ensures buffer[..] == old(buffer[..at]) + LE16(value) + old(buffer[at + 2..])
  {
    buffer[at] := value % 0x100;
    buffer[at + 1] := value / 0x100;
  }

  method WriteUInt32LE(buffer: array<byte>, value: nat, at: nat)
    requires value < 0x1_0000_0000 && at + 4 <= buffer.Length
    modifies buffer
    ensures buffer[..] == old(buffer[..at]) + LE32(value) + old(buffer[at + 4..])
  {
    buffer[at] := value % 0x100;
    buffer[at + 1] := value / 0x100 % 0x100;
    buffer[at + 2] := value / 0x100 / 0x100 % 0x100;
    buffer[at + 3] := value / 0x100 / 0x100 / 0x100;
  }

  method WriteHeader(count: nat) returns (header: seq<byte>)
    requires count < 0x1_0000
    ensures header == [0, 0] + LE16(1) + LE16(count)
  {
    var buffer := new byte[6](i => 0);
    WriteUInt16LE(buffer, 1, 2);
    WriteUInt16LE(buffer, count, 4);
    header := buffer[..];
  }

  method WriteEntry(width: nat, length: nat, offset: nat) returns (entry: seq<byte>)
    requires width <= 256 && length < 0x1_0000_0000 && offset < 0x1_0000_0000
    ensures entry == EntryStart(width) + LE32(length) + LE32(offset)
  {
    var buffer := new byte[16](i => 0);
    buffer[0] := if width == 256 then 0 else width;
    buffer[1] := if width == 256 then 0 else width;
    WriteUInt16LE(buffer, 1, 4);
    WriteUInt16LE(buffer, 32, 6);
    assert buffer[..8] == EntryStart(width);
    WriteUInt32LE(buffer, length, 8);
    assert buffer[..12] == EntryStart(width) + LE32(length);
    WriteUInt32LE(buffer, offset, 12);
    entry := buffer[..];
  }

  lemma FlattenPrefix(images: seq<seq<byte>>, k: nat)
    requires k < |images|
    ensures Flatten(images[..k + 1]) == Flatten(images[..k]) + images[k]
  {
    assert images[..k + 1] == images[..k] + [images[k]];
    FlattenAppend(images[..k], [images[k]]);
    assert Flatten([images[k]]) == images[k] + Flatten([]);
  }

  /** None when a buffer access raises. */
  method FaviconIco(images: seq<seq<byte>>) returns (file: Option<seq<byte>>)
    ensures file.Some? <==> Fits(images)
    ensures file.Some? ==> file.value == Encoded(images)
  {
    if |images| >= 0x1_0000 { return None; }
    var header := WriteHeader(|images|);
    var offset := 6 + |images| * 16;
    var entries: seq<byte> := [];
    for k := 0 to |images|
      invariant offset == Offset(images, k)
      invariant forall i :: 0 <= i < k ==> EntryFits(images, i)
      invariant entries == Entries(images, k)
    {
      if |images[k]| < 20 {
        assert !EntryFits(images, k);
        return None;
      }
      var width := ReadBE32(images[k], 16);
      if width > 256 || |images[k]| >= 0x1_0000_0000 || offset >= 0x1_0000_0000 {
        assert !EntryFits(images, k);
        return None;
      }
      var entry := WriteEntry(width, |images[k]|, offset);
      entries := entries + entry;
      FlattenPrefix(images, k);
      offset := offset + |images[k]|;
    }
    return Some(header + entries + Flatten(images));
  }

  // ---------------------------------------------------------------- the reader

  /** The number of directory entries. */
  function ImageCount(file: seq<byte>): Option<nat> {
    if |file| >= 6 then Some(ReadLE16(file, 4)) else None
  }

  /** Image `k`, found through its directory entry. */
  function ImageAt(file: seq<byte>, k: nat): Option<seq<byte>> {
    var entry := 6 + 16 * k;
    if entry + 16 > |file| then None
    else
      var length, offset := ReadLE32(file, entry + 8), ReadLE32(file, entry + 12);
      if offset + length <= |file| then Some(file[offset..offset + length]) else None
  }

  lemma {:induction false} EntryPosition(images: seq<seq<byte>>, n: nat, k: nat)
    requires k < n <= |images| && forall i :: 0 <= i < n ==> EntryFits(images, i)
    ensures Entries(images, n)[16 * k..16 * k + 16] == Entry(images, k)
  {
    if k < n - 1 {
      EntryPosition(images, n - 1, k);
      assert Entries(images, n)[16 * k..16 * k + 16] == Entries(images, n - 1)[16 * k..16 * k + 16];
    }
  }

  /** Directory entry `k` of the file. */
  lemma EntryInFile(images: seq<seq<byte>>, k: nat)
    requires Fits(images) && k < |images|
    ensures 6 + 16 * k + 16 <= |Encoded(images)|
    ensures Encoded(images)[6 + 16 * k..6 + 16 * k + 16] == Entry(images, k)
  {
    var file, entries := Encoded(images), Entries(images, |images|);
    EntryPosition(images, |images|, k);
    assert file[6..6 + |entries|] == entries;
    assert file[6 + 16 * k..6 + 16 * k + 16] == entries[16 * k..16 * k + 16];
  }

  lemma EntryParts(images: seq<seq<byte>>, k: nat)
    requires k < |images| && EntryFits(images, k)
    ensures Entry(images, k)[8..12] == LE32(|images[k]|) && Entry(images, k)[12..16] == LE32(Offset(images, k))
    ensures Entry(images, k)[0] == if Width(images[k]) == 256 then 0 else Width(images[k])
    ensures Entry(images, k)[1] == Entry(images, k)[0]
  {
  }

  lemma SubSlice(s: seq<byte>, at: nat, i: nat, j: nat)
    requires at + 16 <= |s| && i <= j <= 16
    ensures s[at + i..at + j] == s[at..at + 16][i..j]
  {
    var w := s[at..at + 16];
    assert forall k :: 0 <= k < 16 ==> w[k] == s[at + k];
  }

  /** The stored length and offset of entry `k`. */
  lemma StoredEntry(images: seq<seq<byte>>, k: nat)
    requires Fits(images) && k < |images|
    ensures var at := 6 + 16 * k;
            && at + 16 <= |Encoded(images)|
            && ReadLE32(Encoded(images), at + 8) == |images[k]|
            && ReadLE32(Encoded(images), at + 12) == Offset(images, k)
  {
    var file, at := Encoded(images), 6 + 16 * k;
    EntryInFile(images, k);
    EntryParts(images, k);
    SubSlice(file, at, 8, 12);
    SubSlice(file, at, 12, 16);
    LE32RoundTrip(|images[k]|, file, at + 8);
    LE32RoundTrip(Offset(images, k), file, at + 12);
  }

  lemma {:induction false} FlattenSlice(images: seq<seq<byte>>, k: nat)
    requires k < |images|
    ensures |Flatten(images[..k])| + |images[k]| <= |Flatten(images)|
    ensures Flatten(images)[|Flatten(images[..k])|..|Flatten(images[..k])| + |images[k]|] == images[k]
  {
    assert images == images[..k + 1] + images[k + 1..];
    FlattenAppend(images[..k + 1], images[k + 1..]);
    FlattenPrefix(images, k);
  }

  lemma CountStored(images: seq<seq<byte>>)
    requires Fits(images)
    ensures ImageCount(Encoded(images)) == Some(|images|)
  {
    var file := Encoded(images);
    assert file[4..6] == LE16(|images|);
    assert file[4] == |images| % 0x100 && file[5] == |images| / 0x100;
  }

  /** Each image stands where its entry says. */
  lemma ImageStored(images: seq<seq<byte>>, k: nat)
    requires Fits(images) && k < |images|
    ensures Offset(images, k) + |images[k]| <= |Encoded(images)|
    ensures Encoded(images)[Offset(images, k)..Offset(images, k) + |images[k]|] == images[k]
  {
    var file, flat := Encoded(images), Flatten(images);
    var base, n := 6 + 16 * |images|, |Flatten(images[..k])|;
    FlattenSlice(images, k);
    assert file[base..] == flat;
    assert file[base + n..base + n + |images[k]|] == flat[n..n + |images[k]|];
  }

  /** Main result: reading the file by its directory gives back every image. */
  lemma ReadBack(images: seq<seq<byte>>, k: nat)
    requires Fits(images) && k < |images|
    ensures ImageCount(Encoded(images)) == Some(|images|)
    ensures ImageAt(Encoded(images), k) == Some(images[k])
  {
    CountStored(images);
    StoredEntry(images, k);
    ImageStored(images, k);
  }

  /** The images tile the rest of the file: no gap, no overlap, nothing after the last. */
  lemma ImagesTile(images: seq<seq<byte>>, k: nat)
    requires Fits(images) && k < |images|
    ensures Offset(images, 0) == 6 + 16 * |images|
    ensures Offset(images, k) + |images[k]| == Offset(images, k + 1)
    ensures Offset(images, |images|) == |Encoded(images)|
  {
    FlattenPrefix(images, k);
    assert images[..|images|] == images;
  }

  /** The first six bytes, one by one. */
  lemma HeaderBytes(images: seq<seq<byte>>)
    requires Fits(images)
    ensures var file := Encoded(images);
            && |file| >= 6 && file[0] == 0 && file[1] == 0 && file[2] == 1 && file[3] == 0
            && file[4] as int + 256 * file[5] as int == |images|
  {
    CountStored(images);
  }

  /** The lowest byte comes first in the file, the highest first in the image. */
  lemma ByteOrder(s: seq<byte>, at: nat)
    requires at + 4 <= |s|
    ensures ReadLE32(s, at) ==
            s[at] as int + 256 * s[at + 1] as int + 65536 * s[at + 2] as int + 16777216 * s[at + 3] as int
    ensures ReadBE32(s, at) ==
            16777216 * s[at] as int + 65536 * s[at + 1] as int + 256 * s[at + 2] as int + s[at + 3] as int
  {
  }

  lemma EntryConstants(width: nat)
    requires width <= 256
    ensures EntryStart(width)[2..] == [0, 0, 1, 0, 32, 0]
  {
  }

  /** Entry `k`, byte by byte: no palette, one plane, 32 bits, then length and offset. */
  lemma EntryBytes(images: seq<seq<byte>>, k: nat)
    requires Fits(images) && k < |images|
    ensures var file, at := Encoded(images), 6 + 16 * k;
            && at + 16 <= |file| && file[at + 2..at + 8] == [0, 0, 1, 0, 32, 0]
            && file[at + 8] as int + 256 * file[at + 9] as int + 65536 * file[at + 10] as int
               + 16777216 * file[at + 11] as int == |images[k]|
            && file[at + 12] as int + 256 * file[at + 13] as int + 65536 * file[at + 14] as int
               + 16777216 * file[at + 15] as int == Offset(images, k)
  {
    var file, at := Encoded(images), 6 + 16 * k;
    StoredEntry(images, k);
    ByteOrder(file, at + 8);
    ByteOrder(file, at + 12);
    EntryInFile(images, k);
    SubSlice(file, at, 2, 8);
    assert EntryFits(images, k);
    EntryConstants(Width(images[k]));
    assert Entry(images, k)[2..8] == EntryStart(Width(images[k]))[2..];
  }

  /** The width a reader takes from entry `k`, where 0 stands for 256. */
  function StoredWidth(file: seq<byte>, k: nat): nat
    requires 6 + 16 * k < |file|
  {
    if file[6 + 16 * k] == 0 then 256 else file[6 + 16 * k] as int
  }

  /** The directory repeats the width of every image but one of width 0, which PNG does not allow. */
  lemma WidthReadBackIff(images: seq<seq<byte>>, k: nat)
    requires Fits(images) && k < |images|
    ensures 6 + 16 * k < |Encoded(images)| && |images[k]| >= 20
    ensures StoredWidth(Encoded(images), k) == Width(images[k]) <==> Width(images[k]) != 0
  {
    EntryInFile(images, k);
    EntryParts(images, k);
    assert Encoded(images)[6 + 16 * k] == Encoded(images)[6 + 16 * k..6 + 16 * k + 16][0];
  }

  /** Image height, the field after the width; the writer never reads it. */
  function Height(image: seq<byte>): nat
    requires |image| >= 24
  {
    ReadBE32(image, 20)
  }

  /** The height a reader takes from entry `k`, where 0 stands for 256. */
  function StoredHeight(file: seq<byte>, k: nat): nat
    requires 6 + 16 * k + 1 < |file|
  {
    if file[6 + 16 * k + 1] == 0 then 256 else file[6 + 16 * k + 1] as int
  }

  /** The height byte repeats the width: a square image keeps its height, and width 0 reads back as height 256. */
  lemma HeightReadBackIff(images: seq<seq<byte>>, k: nat)
    requires Fits(images) && k < |images| && |images[k]| >= 24
    ensures 6 + 16 * k + 1 < |Encoded(images)|
    ensures StoredHeight(Encoded(images), k) == Height(images[k]) <==>
            if Width(images[k]) == 0 then Height(images[k]) == 256 else Height(images[k]) == Width(images[k])
  {
    EntryInFile(images, k);
    EntryParts(images, k);
    var entry := Encoded(images)[6 + 16 * k..6 + 16 * k + 16];
    assert Encoded(images)[6 + 16 * k + 1] == entry[1];
  }

  /** Twenty zero bytes: long enough to carry a width, and the width is 0. */
  const ZERO_WIDTH_IMAGE: seq<byte> := seq(20, _ => 0)

  /** It is written without complaint and read back as 256 wide. */
  lemma ZeroWidthReadsAs256()
    ensures Fits([ZERO_WIDTH_IMAGE]) && Width(ZERO_WIDTH_IMAGE) == 0
    ensures 6 < |Encoded([ZERO_WIDTH_IMAGE])| && StoredWidth(Encoded([ZERO_WIDTH_IMAGE]), 0) == 256
  {
    var images := [ZERO_WIDTH_IMAGE];
    assert images[..0] == [];
    assert EntryFits(images, 0);
    WidthReadBackIff(images, 0);
    EntryInFile(images, 0);
    EntryParts(images, 0);
    assert Encoded(images)[6] == Encoded(images)[6..22][0];
  }

  /** Sixteen wide and thirty-two high. */
  const TALL_IMAGE: seq<byte> := seq(24, i => if i == 19 then 16 else if i == 23 then 32 else 0)

  /** It is written without complaint and read back as sixteen high. */
  lemma TallImageReadsAsSquare()
    ensures Fits([TALL_IMAGE]) && Width(TALL_IMAGE) == 16 && Height(TALL_IMAGE) == 32
    ensures 7 < |Encoded([TALL_IMAGE])| && StoredHeight(Encoded([TALL_IMAGE]), 0) == 16
  {
    var images := [TALL_IMAGE];
    assert images[..0] == [];
    assert EntryFits(images, 0);
    EntryInFile(images, 0);
    EntryParts(images, 0);
    assert Encoded(images)[7] == Encoded(images)[6..22][1];
  }
}

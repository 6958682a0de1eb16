/**
 The catalog file. The writer stores its header in its own byte order and the
 table twice, first little endian and then big endian; the reader must find the
 same catalog whatever the two machines' byte orders are.
 */
module CatalogFile {
  import opened MessageIndex
  import opened Wrappers
  import opened TableLookup

  datatype Order = Little | Big

  const MAGIC: Word := 0x9604_08de
  const HEADER_SIZE: nat := 12

  /** (w >> 8 * k) & 0xff */
  function ByteOf(w: nat, k: nat): Byte
  {
    if k == 0 then w % 0x100 else ByteOf(w / 0x100, k - 1)
  }

  function Compose(b0: Byte, b1: Byte, b2: Byte, b3: Byte): Word
  {
    (b0 as int) + (b1 as int) * 0x100 + (b2 as int) * 0x1_0000 + (b3 as int) * 0x100_0000
  }

  /** SWAPU32 of the writer, which moves the lowest byte by a 32-bit shift and the others by masks. */
  function SwapInWriter(w: Word): nat
  {
    ((w as int) * 0x100_0000) % 0x1_0000_0000
    + (ByteOf(w, 1) as int) * 0x100 * 0x100
    + (ByteOf(w, 2) as int) * 0x100
    + ByteOf(w, 3)
  }

  /** bswap_32, which the reader uses, takes the four bytes one by one. */
  function SwapInReader(w: Word): Word
  {
    Compose(ByteOf(w, 3), ByteOf(w, 2), ByteOf(w, 1), ByteOf(w, 0))
  }

  /** A word in memory. */
  function WordBytes(order: Order, w: Word): (bs: seq<Byte>)
    ensures |bs| == 4
  {
    if order == Little then [ByteOf(w, 0), ByteOf(w, 1), ByteOf(w, 2), ByteOf(w, 3)]
    else [ByteOf(w, 3), ByteOf(w, 2), ByteOf(w, 1), ByteOf(w, 0)]
  }

  function ReadWord(order: Order, bs: seq<Byte>): Word
    requires |bs| == 4
  {
    if order == Little then Compose(bs[0], bs[1], bs[2], bs[3]) else Compose(bs[3], bs[2], bs[1], bs[0])
  }

  function WordsBytes(order: Order, ws: seq<Word>): (bs: seq<Byte>)
    ensures |bs| == 4 * |ws|
  {
    if ws == [] then [] else WordBytes(order, ws[0]) + WordsBytes(order, ws[1..])
  }

  function ReadWords(order: Order, bs: seq<Byte>, n: nat): (ws: seq<Word>)
    requires |bs| == 4 * n
    ensures |ws| == n
  {
    if n == 0 then [] else [ReadWord(order, bs[..4])] + ReadWords(order, bs[4..], n - 1)
  }

  lemma BytesOfComposed(b0: Byte, b1: Byte, b2: Byte, b3: Byte)
    ensures var w := Compose(b0, b1, b2, b3);
            ByteOf(w, 0) == b0 && ByteOf(w, 1) == b1 && ByteOf(w, 2) == b2 && ByteOf(w, 3) == b3
  {
    var w: int := Compose(b0, b1, b2, b3);
    var w1: int := (b1 as int) + (b2 as int) * 0x100 + (b3 as int) * 0x1_0000;
    var w2: int := (b2 as int) + (b3 as int) * 0x100;
    assert w / 0x100 == w1 && w1 / 0x100 == w2 && w2 / 0x100 == b3;
    assert ByteOf(w, 1) == ByteOf(w1, 0);
    assert ByteOf(w, 2) == ByteOf(w1, 1) == ByteOf(w2, 0);
    assert ByteOf(w, 3) == ByteOf(w1, 2) == ByteOf(w2, 1) == ByteOf(b3, 0);
  }

  lemma ComposeBytes(w: Word)
    ensures Compose(ByteOf(w, 0), ByteOf(w, 1), ByteOf(w, 2), ByteOf(w, 3)) == w
  {
    var w1: nat := (w as int) / 0x100;
    var w2: nat := w1 / 0x100;
    assert w == ByteOf(w, 0) + 0x100 * w1;
    assert w1 == ByteOf(w1, 0) + 0x100 * w2 && ByteOf(w1, 0) == ByteOf(w, 1);
    assert w2 == ByteOf(w2, 0) + 0x100 * (w2 / 0x100) && ByteOf(w2, 0) == ByteOf(w1, 1) == ByteOf(w, 2);
    assert w2 / 0x100 == ByteOf(w2, 1) == ByteOf(w1, 2) == ByteOf(w, 3);
  }

  lemma WordRoundTrip(order: Order, w: Word)
    ensures ReadWord(order, WordBytes(order, w)) == w
  {
    ComposeBytes(w);
  }

  lemma ShiftedByte(w: Word)
    ensures ((w as int) * 0x100_0000) % 0x1_0000_0000 == (ByteOf(w, 0) as int) * 0x100_0000
  {
  }

  /** Both swap macros are the same function, and reverse the bytes of a word. */
  lemma SwapReversesBytes(w: Word)
    ensures SwapInWriter(w) == SwapInReader(w)
    ensures WordBytes(Big, SwapInReader(w)) == WordBytes(Little, w)
    ensures WordBytes(Little, SwapInReader(w)) == WordBytes(Big, w)
  {
    ShiftedByte(w);
    BytesOfComposed(ByteOf(w, 3), ByteOf(w, 2), ByteOf(w, 1), ByteOf(w, 0));
  }

  lemma ReadForeignWord(reader: Order, writer: Order, w: Word)
    requires reader != writer
    ensures ReadWord(reader, WordBytes(writer, w)) == SwapInReader(w)
    ensures SwapInReader(SwapInReader(w)) == w
  {
    SwapReversesBytes(w);
    WordRoundTrip(reader, SwapInReader(w));
    BytesOfComposed(ByteOf(w, 3), ByteOf(w, 2), ByteOf(w, 1), ByteOf(w, 0));
    ComposeBytes(w);
  }

  lemma {:induction false} WordsRoundTrip(order: Order, ws: seq<Word>)
    ensures ReadWords(order, WordsBytes(order, ws), |ws|) == ws
  {
    if ws != [] {
      var bs := WordsBytes(order, ws);
      assert bs[..4] == WordBytes(order, ws[0]) && bs[4..] == WordsBytes(order, ws[1..]);
      WordRoundTrip(order, ws[0]);
      WordsRoundTrip(order, ws[1..]);
    }
  }

  lemma {:induction false} WordsSwapped(order: Order, other: Order, ws: seq<Word>, swapped: seq<Word>)
    requires order != other
    requires |swapped| == |ws| && forall i :: 0 <= i < |ws| ==> swapped[i] == SwapInReader(ws[i])
    ensures WordsBytes(order, swapped) == WordsBytes(other, ws)
  {
    if ws != [] {
      SwapReversesBytes(ws[0]);
      WordsSwapped(order, other, ws[1..], swapped[1..]);
    }
  }

  // ----- Writing -----

  /** The table has the announced size, and its size in bytes fits 32 bits. */
  ghost predicate Storable(info: CatalogInfo)
  {
    && |info.names| == TableWords(info.planeSize, info.planeDepth)
    && 4 * |info.names| < WORD
  }

  ghost function Header(order: Order, info: CatalogInfo): (bs: seq<Byte>)
    ensures |bs| == HEADER_SIZE
  {
    WordBytes(order, MAGIC) + WordBytes(order, info.planeSize) + WordBytes(order, info.planeDepth)
  }

  /** The file depends on the writer's byte order in its header only. */
  ghost function Image(writer: Order, info: CatalogInfo): seq<Byte>
  {
    Header(writer, info) + WordsBytes(Little, info.names) + WordsBytes(Big, info.names) + info.strings
  }

  /** The copy of the table with swapped byte order. */
  method SwapTable(native: seq<Word>) returns (swapped: seq<Word>)
    ensures |swapped| == |native| && forall i :: 0 <= i < |native| ==> swapped[i] == SwapInReader(native[i])
  {
    swapped := [];
    for cnt := 0 to |native|
      invariant |swapped| == cnt && forall i :: 0 <= i < cnt ==> swapped[i] == SwapInReader(native[i])
    {
      SwapReversesBytes(native[cnt]);
      swapped := swapped + [SwapInWriter(native[cnt])];
    }
  }

  /** Write the file on a machine of byte order `writer`. */
  method Write(writer: Order, info: CatalogInfo) returns (file: seq<Byte>)
    requires Storable(info)
    ensures file == Image(writer, info)
  {
    var native := info.names;
    var swapped := SwapTable(native);
    var arraySize := ArraySize(info.planeSize, info.planeDepth);
    ArraySizeFits(info);
    var first, second := if writer == Little then native else swapped, if writer == Little then swapped else native;
    WordsSwapped(writer, if writer == Little then Big else Little, native, swapped);
    file := WordBytes(writer, MAGIC) + WordBytes(writer, info.planeSize) + WordBytes(writer, info.planeDepth);
    file := file + WordsBytes(writer, first)[..arraySize];
    file := file + WordsBytes(writer, second)[..arraySize];
    file := file + info.strings;
  }

  /** The table size in bytes, as the writer keeps it in 32 bits. */
  function ArraySize(size: nat, depth: nat): nat
  {
    (size * depth * 4 * 3) % 0x1_0000_0000
  }

  lemma ArraySizeFits(info: CatalogInfo)
    requires Storable(info)
    ensures ArraySize(info.planeSize, info.planeDepth) == 4 * |info.names|
  {
    var size: nat, depth: nat := info.planeSize, info.planeDepth;
    assert size * depth * 4 * 3 == 4 * (3 * size * depth);
  }

  // ----- The file, byte by byte -----

  /** The four bytes at `p` are the word `w`, lowest byte first, or highest byte first. */
  ghost predicate WordAt(file: seq<Byte>, p: nat, order: Order, w: nat)
  {
    p + 4 <= |file| &&
    var a: nat, b: nat, c: nat, d: nat := file[p], file[p + 1], file[p + 2], file[p + 3];
    w == if order == Little then a + 256 * b + 65536 * c + 16777216 * d else d + 256 * c + 65536 * b + 16777216 * a
  }

  lemma BytesOfWord(file: seq<Byte>, p: nat, order: Order, w: Word)
    requires p + 4 <= |file| && file[p..p + 4] == WordBytes(order, w)
    ensures WordAt(file, p, order, w)
  {
    hide ByteOf;
    var bs := file[p..p + 4];
    assert bs[0] == file[p] && bs[1] == file[p + 1] && bs[2] == file[p + 2] && bs[3] == file[p + 3];
    ComposeBytes(w);
  }

  lemma {:induction false} WordsBytesAt(order: Order, ws: seq<Word>, k: nat)
    requires k < |ws|
    ensures WordsBytes(order, ws)[4 * k..4 * k + 4] == WordBytes(order, ws[k])
  {
    hide WordBytes;
    var bs, rest := WordsBytes(order, ws), WordsBytes(order, ws[1..]);
    if k == 0 {
      assert bs[0..4] == WordBytes(order, ws[0]);
    } else {
      WordsBytesAt(order, ws[1..], k - 1);
      assert bs[4 * k..4 * k + 4] == rest[4 * (k - 1)..4 * (k - 1) + 4];
    }
  }

  /** What stands where in a catalog file: the magic number, the number of columns and their depth
      in the order of the machine; the words of the table lowest byte first; the same words
      highest byte first; and the strings. */
  lemma FileBytes(writer: Order, info: CatalogInfo, k: nat)
    requires k < |info.names|
    ensures var file, n := Image(writer, info), 4 * |info.names|;
            && WordAt(file, 0, writer, 0x9604_08de) && WordAt(file, 4, writer, info.planeSize)
            && WordAt(file, 8, writer, info.planeDepth)
            && WordAt(file, 12 + 4 * k, Little, info.names[k]) && WordAt(file, 12 + n + 4 * k, Big, info.names[k])
            && |file| == 12 + 2 * n + |info.strings| && file[12 + 2 * n..] == info.strings
  {
    hide WordBytes, WordAt, WordsBytes;
    var file, n := Image(writer, info), 4 * |info.names|;
    var m, s, d := WordBytes(writer, MAGIC), WordBytes(writer, info.planeSize), WordBytes(writer, info.planeDepth);
    var t1, t2 := WordsBytes(Little, info.names), WordsBytes(Big, info.names);
    assert file[0..4] == m && file[4..8] == s && file[8..12] == d;
    BytesOfWord(file, 0, writer, MAGIC);
    BytesOfWord(file, 4, writer, info.planeSize);
    BytesOfWord(file, 8, writer, info.planeDepth);
    WordsBytesAt(Little, info.names, k);
    WordsBytesAt(Big, info.names, k);
    assert file[12 + 4 * k..12 + 4 * k + 4] == t1[4 * k..4 * k + 4];
    assert file[12 + n + 4 * k..12 + n + 4 * k + 4] == t2[4 * k..4 * k + 4];
    BytesOfWord(file, 12 + 4 * k, Little, info.names[k]);
    BytesOfWord(file, 12 + n + 4 * k, Big, info.names[k]);
  }

  // ----- Opening -----

  /** `Overrun` stands for a read outside the file and what follows it in memory. */
  datatype Opening = Opened(info: CatalogInfo) | Rejected | Overrun

  /** Every offset points into a pool that ends with a NUL. */
  ghost predicate Terminated(info: CatalogInfo)
  {
    && (forall k :: 0 <= k < |info.names| && k % 3 == 2 ==> info.names[k] < |info.strings|)
    && info.strings != [] && info.strings[|info.strings| - 1] == 0
  }

  /** The dimensions in the header, if its magic number is right in either byte order. */
  function Dimensions(reader: Order, file: seq<Byte>): (r: (bool, Word, Word))
    requires |file| >= HEADER_SIZE
  {
    var magic, size, depth := ReadWord(reader, file[..4]), ReadWord(reader, file[4..8]), ReadWord(reader, file[8..12]);
    if magic == MAGIC then (true, size, depth)
    else (magic == SwapInReader(MAGIC), SwapInReader(size), SwapInReader(depth))
  }

  /** The magic number tells whether to swap, and swapping recovers the dimensions. */
  lemma DecodeHeader(reader: Order, writer: Order, info: CatalogInfo, file: seq<Byte>)
    requires file == Image(writer, info)
    ensures |file| >= HEADER_SIZE && Dimensions(reader, file) == (true, info.planeSize, info.planeDepth)
  {
    var m, s, d := WordBytes(writer, MAGIC), WordBytes(writer, info.planeSize), WordBytes(writer, info.planeDepth);
    assert file[..4] == m && file[4..8] == s && file[8..12] == d;
    if reader == writer {
      WordRoundTrip(reader, MAGIC);
      WordRoundTrip(reader, info.planeSize);
      WordRoundTrip(reader, info.planeDepth);
    } else {
      ReadForeignWord(reader, writer, MAGIC);
      ReadForeignWord(reader, writer, info.planeSize);
      ReadForeignWord(reader, writer, info.planeDepth);
      MagicIsNotSymmetric();
    }
  }

  lemma MagicIsNotSymmetric()
    ensures SwapInReader(MAGIC) != MAGIC
  {
  }

  /** Each reader finds the table in its own byte order, and the strings behind both. */
  lemma DecodeTables(reader: Order, writer: Order, info: CatalogInfo, file: seq<Byte>)
    requires file == Image(writer, info)
    ensures var n := 4 * |info.names|;
            var start := if reader == Little then HEADER_SIZE else HEADER_SIZE + n;
            && |file| == HEADER_SIZE + 2 * n + |info.strings|
            && ReadWords(reader, file[start..start + n], |info.names|) == info.names
            && file[HEADER_SIZE + 2 * n..] == info.strings
  {
    var n := 4 * |info.names|;
    var start := if reader == Little then HEADER_SIZE else HEADER_SIZE + n;
    assert file[start..start + n] == WordsBytes(reader, info.names);
    WordsRoundTrip(reader, info.names);
  }

  /** The first part of `__open_catalog`: byte order, dimensions and tables. */
  method Decode(reader: Order, file: seq<Byte>, ghost writer: Order, ghost written: CatalogInfo) returns (r: Opening)
    ensures Storable(written) && file == Image(writer, written) ==> r == Opened(written)
    ensures r.Opened? ==> |r.info.names| == TableWords(r.info.planeSize, r.info.planeDepth)
  {
    ghost var genuine := Storable(written) && file == Image(writer, written);
    if genuine {
      DecodeHeader(reader, writer, written, file);
      DecodeTables(reader, writer, written, file);
    }
    if |file| < HEADER_SIZE {
      return Rejected;
    }
    var (genuineMagic, size, depth) := Dimensions(reader, file);
    if !genuineMagic {
      return Rejected;
    }
    var tabSize := TableWords(size, depth);
    assert genuine ==> tabSize == |written.names|;
    var start := if reader == Little then HEADER_SIZE else HEADER_SIZE + 4 * tabSize;
    if start + 4 * tabSize > |file| {
      return Overrun;
    }
    var names := ReadWords(reader, file[start..start + 4 * tabSize], tabSize);
    var strings := if HEADER_SIZE + 8 * tabSize <= |file| then file[HEADER_SIZE + 8 * tabSize..] else [];
    return Opened(CatalogInfo(size, depth, names, strings));
  }

  /** All of `__open_catalog` from the magic number on. Behind the file `zeros` more bytes
      can be read, all zero: the rest of the last page if the file is mapped, none if it is
      read. A file that `Write` made is opened as what was written if it holds a message; if
      it holds none, the scan for the end of the last string begins behind the file. */
  method Open(reader: Order, file: seq<Byte>, zeros: nat, ghost writer: Order,
              ghost written: CatalogInfo) returns (r: Opening)
    ensures Storable(written) && file == Image(writer, written) && Terminated(written) ==> r == Opened(written)
    ensures Storable(written) && file == Image(writer, written) && |written.names| > 0
            && written.strings == [] && (forall i :: 0 <= i < |written.names| ==> written.names[i] == 0)
            ==> r == if zeros > 0 then Opened(written) else Overrun
  {
    hide Image, Storable, ReadWords, TableWords;
    r := Decode(reader, file, writer, written);
    if !r.Opened? {
      return;
    }
    if Storable(written) && file == Image(writer, written) {
      DecodeTables(reader, writer, written, file);
    }
    var info := r.info;
    var tabSize := |info.names|;
    var maxOffset := LargestOffset(info);
    if |file| <= HEADER_SIZE + 2 * tabSize + maxOffset {
      return Rejected;
    }
    var end := FindEnd(info.strings, zeros, maxOffset, |file| - HEADER_SIZE + 2 * tabSize + maxOffset);
    if end == None {
      return Overrun;
    } else if !end.value {
      return Rejected;
    }
  }

  /** The scan for the end of the string at `start`, of at most `limit` bytes: None if it
      leaves the memory, else whether the end is found. */
  method FindEnd(strings: seq<Byte>, zeros: nat, start: nat, limit: nat) returns (found: Option<bool>)
    requires limit > 0
    ensures strings != [] && strings[|strings| - 1] == 0 && start < |strings| <= start + limit ==> found == Some(true)
    ensures start >= |strings| ==> found == if start < |strings| + zeros then Some(true) else None
  {
    var last, left: nat := start, limit;
    while last < |strings| && strings[last] != 0
      invariant left + last == limit + start && left > 0 && start <= last && (start >= |strings| ==> last == start)
      invariant strings != [] && strings[|strings| - 1] == 0 && start < |strings| ==> last < |strings|
      decreases |strings| - last
    {
      left := left - 1;
      if left == 0 {
        return Some(false);
      }
      last := last + 1;
    }
    found := if last < |strings| + zeros then Some(true) else None;
  }

  /** The loop over the third word of each cell. */
  method LargestOffset(info: CatalogInfo) returns (m: nat)
    ensures forall k :: 0 <= k < |info.names| && k % 3 == 2 ==> info.names[k] <= m
    ensures m == 0 || exists k :: 0 <= k < |info.names| && k % 3 == 2 && info.names[k] == m
  {
    m := 0;
    var cnt := 2;
    while cnt < |info.names|
      invariant 2 <= cnt && cnt % 3 == 2
      invariant forall k :: 0 <= k < |info.names| && k < cnt && k % 3 == 2 ==> info.names[k] <= m
      invariant m == 0 || exists k :: 0 <= k < |info.names| && k % 3 == 2 && info.names[k] == m
    {
      if info.names[cnt] > m {
        m := info.names[cnt];
      }
      cnt := cnt + 3;
    }
  }
}

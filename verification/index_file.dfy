/** The index on disk: packed bookmarks, closed by a magic record. */
module IndexFile {
  import opened Division
  import opened SeekIndex

  type Byte = b: nat | b < 0x100

  const RECORD_SIZE: nat := 20

  /** A bookmark whose fields fit their stored types. */
  predicate Storable(b: Bookmark) {
    b.byteOffset < 0x1_0000_0000_0000_0000 && -0x8000_0000_0000_0000 <= b.timestamp < 0x8000_0000_0000_0000
  }

  // ----- Little-endian integers -----

  function ToBytes(n: nat, size: nat): (r: seq<Byte>)
    ensures |r| == size
  {
    if size == 0 then [] else [n % 0x100] + ToBytes(n / 0x100, size - 1)
  }

  function FromBytes(bytes: seq<Byte>): nat {
    if bytes == [] then 0 else bytes[0] + 0x100 * FromBytes(bytes[1..])
  }

  /** 256 to the power of `size`. */
  function Limit(size: nat): nat { if size == 0 then 1 else 0x100 * Limit(size - 1) }

  lemma {:induction false} BytesRoundTrip(n: nat, size: nat)
    requires n < Limit(size)
    ensures FromBytes(ToBytes(n, size)) == n
    decreases size
  {
    if size > 0 {
      BytesRoundTrip(n / 0x100, size - 1);
      assert ToBytes(n, size)[1..] == ToBytes(n / 0x100, size - 1);
    }
  }

  lemma Limits()
    ensures Limit(4) == 0x1_0000_0000 && Limit(8) == 0x1_0000_0000_0000_0000
  {
  }

  // ----- One record -----

  /** The two's complement of a 64-bit timestamp. */
  function Unsigned(t: int): int { if t < 0 then t + 0x1_0000_0000_0000_0000 else t }

  function Signed(n: int): int { if n < 0x8000_0000_0000_0000 then n else n - 0x1_0000_0000_0000_0000 }

  /** `serialize_bookmark`: timestamp, byte offset, count. */
  function Record(b: Bookmark): (r: seq<Byte>)
    requires Storable(b)
    ensures |r| == RECORD_SIZE
  {
    ToBytes(Unsigned(b.timestamp), 8) + ToBytes(b.byteOffset, 8) + ToBytes(b.cdEventCount, 4)
  }

  /** `deserialize_bookmark` of a whole record. */
  function BookmarkOf(bytes: seq<Byte>): Bookmark
    requires |bytes| == RECORD_SIZE
  {
    Bookmark(FromBytes(bytes[8..16]), Signed(FromBytes(bytes[..8])), FromBytes(bytes[16..]) % 0x1_0000_0000)
  }

  lemma RecordRoundTrip(b: Bookmark)
    requires Storable(b)
    ensures BookmarkOf(Record(b)) == b
  {
    hide ToBytes, FromBytes;
    var r := Record(b);
    assert r[..8] == ToBytes(Unsigned(b.timestamp), 8);
    assert r[8..16] == ToBytes(b.byteOffset, 8);
    assert r[16..] == ToBytes(b.cdEventCount, 4);
    Limits();
    BytesRoundTrip(Unsigned(b.timestamp), 8);
    BytesRoundTrip(b.byteOffset, 8);
    BytesRoundTrip(b.cdEventCount, 4);
  }

  // ----- The file -----

  predicate AllStorable(bookmarks: seq<Bookmark>) {
    forall i :: 0 <= i < |bookmarks| ==> Storable(bookmarks[i])
  }

  /** Records one after the other. */
  function Packed(bookmarks: seq<Bookmark>): seq<Byte>
    requires AllStorable(bookmarks)
  {
    if bookmarks == [] then [] else Record(bookmarks[0]) + Packed(bookmarks[1..])
  }

  /** The whole records at the front of a file. */
  function Unpacked(bytes: seq<Byte>): seq<Bookmark>
    decreases |bytes|
  {
    if |bytes| < RECORD_SIZE then []
    else [BookmarkOf(bytes[..RECORD_SIZE])] + Unpacked(bytes[RECORD_SIZE..])
  }

  /** What `load_bookmarks` keeps: everything before the magic record, or nothing without one. */
  function Loaded(bytes: seq<Byte>, magic: Bookmark): seq<Bookmark> {
    var all := Unpacked(bytes);
    if all == [] || all[|all| - 1] != magic then [] else all[..|all| - 1]
  }

  method WriteIndex(bookmarks: seq<Bookmark>, magic: Bookmark) returns (file: seq<Byte>)
    requires AllStorable(bookmarks) && Storable(magic)
    ensures file == Packed(bookmarks + [magic])
  {
    hide Record;
    file := [];
    ghost var all := bookmarks + [magic];
    var k := 0;
    while k < |bookmarks|
      invariant k <= |bookmarks| && file + Packed(all[k..]) == Packed(all)
    {
      assert all[k..][1..] == all[k + 1..];
      assert file + (Record(bookmarks[k]) + Packed(all[k + 1..]))
          == (file + Record(bookmarks[k])) + Packed(all[k + 1..]);
      file := file + Record(bookmarks[k]);
      k := k + 1;
    }
    assert all[k..] == [magic] && Packed([magic][1..]) == [];
    file := file + Record(magic);
  }

  /** Reads records until one is incomplete. */
  method LoadBookmarks(file: seq<Byte>, magic: Bookmark) returns (bookmarks: seq<Bookmark>)
    ensures bookmarks == Loaded(file, magic)
  {
    hide BookmarkOf;
    bookmarks := [];
    var pos, good := 0, true;
    while good
      invariant pos <= |file|
      invariant if good then bookmarks + Unpacked(file[pos..]) == Unpacked(file) else bookmarks == Unpacked(file)
      decreases good, |file| - pos
    {
      if |file| - pos < RECORD_SIZE {
        good := false;
      } else {
        assert file[pos..][..RECORD_SIZE] == file[pos..pos + RECORD_SIZE];
        assert file[pos..][RECORD_SIZE..] == file[pos + RECORD_SIZE..];
        bookmarks := bookmarks + [BookmarkOf(file[pos..pos + RECORD_SIZE])];
        pos := pos + RECORD_SIZE;
      }
    }
    if bookmarks == [] || bookmarks[|bookmarks| - 1] != magic {
      bookmarks := [];
    } else {
      bookmarks := bookmarks[..|bookmarks| - 1];
    }
  }

  // ----- A file that was cut short -----

  /** The first `n` bytes of a packed list hold exactly its first `n / 20` records. */
  lemma {:induction false} UnpackedPrefix(bookmarks: seq<Bookmark>, n: nat)
    requires AllStorable(bookmarks) && n <= |Packed(bookmarks)|
    ensures |Packed(bookmarks)| == RECORD_SIZE * |bookmarks|
    ensures Unpacked(Packed(bookmarks)[..n]) == bookmarks[..n / RECORD_SIZE]
    decreases bookmarks
  {
    hide Record, BookmarkOf, Storable;
    if bookmarks != [] {
      var r, rest := Record(bookmarks[0]), Packed(bookmarks[1..]);
      UnpackedPrefix(bookmarks[1..], if n < RECORD_SIZE then 0 else n - RECORD_SIZE);
      if n >= RECORD_SIZE {
        RecordRoundTrip(bookmarks[0]);
        var bytes := Packed(bookmarks)[..n];
        assert bytes[..RECORD_SIZE] == r && bytes[RECORD_SIZE..] == rest[..n - RECORD_SIZE];
        assert bookmarks[..n / RECORD_SIZE] == [bookmarks[0]] + bookmarks[1..][..n / RECORD_SIZE - 1];
      }
    }
  }

  /**
   An index file survives exactly when it is complete. Reading back the first `n` bytes of what was written gives the
   bookmarks if all of it is there, and nothing, so that the index is rebuilt, if it was cut short anywhere.
   */
  lemma LoadIff(bookmarks: seq<Bookmark>, magic: Bookmark, n: nat)
    requires AllStorable(bookmarks) && Storable(magic) && magic !in bookmarks
    requires n <= |Packed(bookmarks + [magic])|
    ensures Loaded(Packed(bookmarks + [magic])[..n], magic)
         == if n == |Packed(bookmarks + [magic])| then bookmarks else []
  {
    hide Packed, Unpacked, Storable;
    var all := bookmarks + [magic];
    UnpackedPrefix(all, n);
    var got := all[..n / RECORD_SIZE];
    if n == |Packed(all)| {
      assert got == all;
    } else if got != [] {
      assert got[|got| - 1] in bookmarks;
    }
  }

  /** A complete file always gives back what was written, even if a bookmark looks like the magic record. */
  method WriteThenLoad(bookmarks: seq<Bookmark>, magic: Bookmark) returns (loaded: seq<Bookmark>)
    requires AllStorable(bookmarks) && Storable(magic)
    ensures loaded == bookmarks
  {
    hide Packed, Unpacked;
    var file := WriteIndex(bookmarks, magic);
    loaded := LoadBookmarks(file, magic);
    UnpackedPrefix(bookmarks + [magic], |file|);
    assert file[..|file|] == file;
    assert (bookmarks + [magic])[..|bookmarks| + 1] == bookmarks + [magic];
  }

  // ----- The bytes -----

  lemma {:induction false} ByteAt(n: nat, size: nat, i: nat)
    requires i < size
    ensures Limit(i) > 0 && ToBytes(n, size)[i] == n / Limit(i) % 0x100
    decreases i
  {
    if i > 0 {
      ByteAt(n / 0x100, size - 1, i - 1);
      DivideTwice(n, Limit(i - 1));
    }
  }

  lemma DivideTwice(n: nat, p: nat)
    requires p > 0
    ensures n / 0x100 / p == n / (0x100 * p)
  {
    var q, r := n / 0x100 / p, n / 0x100 % p;
    assert n / 0x100 == p * q + r;
    assert n == (0x100 * p) * q + (0x100 * r + n % 0x100) by { assert (0x100 * p) * q == 0x100 * (p * q); }
    Remainder(q, 0x100 * r + n % 0x100, 0x100 * p);
  }

  /** The layout of a record: timestamp in two's complement, byte offset, count, each least significant byte first. */
  lemma RecordLayout(b: Bookmark, i: nat)
    requires Storable(b) && i < 20
    ensures var r := Record(b);
            if i < 8 then
              Limit(i) > 0
              && r[i] == (if b.timestamp < 0 then b.timestamp + 0x1_0000_0000_0000_0000 else b.timestamp)
                         / Limit(i) % 0x100
            else if i < 16 then Limit(i - 8) > 0 && r[i] == b.byteOffset / Limit(i - 8) % 0x100
            else Limit(i - 16) > 0 && r[i] == b.cdEventCount / Limit(i - 16) % 0x100
  {
    hide ToBytes, Limit;
    if i < 8 {
      ByteAt(Unsigned(b.timestamp), 8, i);
    } else if i < 16 {
      ByteAt(b.byteOffset, 8, i - 8);
    } else {
      ByteAt(b.cdEventCount, 4, i - 16);
    }
  }

  lemma {:induction false} UnpackedAt(bytes: seq<Byte>, i: nat)
    requires i < |bytes| / 20
    ensures |Unpacked(bytes)| == |bytes| / 20
    ensures Unpacked(bytes)[i] == BookmarkOf(bytes[20 * i..20 * i + 20])
    decreases |bytes|
  {
    hide BookmarkOf;
    var rest := bytes[RECORD_SIZE..];
    if i > 0 {
      UnpackedAt(rest, i - 1);
      assert rest[20 * (i - 1)..20 * (i - 1) + 20] == bytes[20 * i..20 * i + 20];
    } else if |rest| >= 20 {
      UnpackedAt(rest, 0);
    }
  }

  /** What is loaded from any bytes: the whole records before the last one, if that one is the magic record. */
  lemma LoadedIs(bytes: seq<Byte>, magic: Bookmark)
    ensures var n := |bytes| / 20;
            if n > 0 && BookmarkOf(bytes[20 * (n - 1)..20 * n]) == magic then
              && |Loaded(bytes, magic)| == n - 1
              && forall i: nat :: i < n - 1 ==> Loaded(bytes, magic)[i] == BookmarkOf(bytes[20 * i..20 * i + 20])
            else Loaded(bytes, magic) == []
  {
    hide BookmarkOf, Unpacked;
    var n := |bytes| / 20;
    if n > 0 {
      UnpackedAt(bytes, n - 1);
      forall i: nat | i < n - 1 ensures Unpacked(bytes)[i] == BookmarkOf(bytes[20 * i..20 * i + 20]) {
        UnpackedAt(bytes, i);
      }
    } else {
      NoRecords(bytes);
    }
  }

  lemma NoRecords(bytes: seq<Byte>)
    requires |bytes| < 20
    ensures Unpacked(bytes) == []
  {
  }
}

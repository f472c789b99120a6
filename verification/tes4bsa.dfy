/** The Tes4-type archive (Oblivion, Fallout 3, Fallout: New Vegas, Skyrim):
    its constants, its three fixed-size on-disk records with their
    little-endian byte layout, the per-file compression rule, and the path
    comparison used to drop duplicate assets. */
module Tes4Bsa {
  import opened GenericBsa

  /** The multi-character literal '\0ASB': written little-endian it is the
      four bytes 'B', 'S', 'A', 0 at the start of the file. */
  const BSA_MAGIC: bv32 := 0x0041_5342
  const BSA_VERSION_TES4: bv32 := 0x67
  /** Also used by Fallout 3, and probably Fallout: New Vegas. */
  const BSA_VERSION_TES5: bv32 := 0x68

  /** Where the folder-record table starts, counted from byte 0. */
  const BSA_FOLDER_RECORD_OFFSET: bv32 := 36

  /** archiveFlags bit: payloads are compressed unless a file says otherwise. */
  const BSA_COMPRESSED: bv32 := 0x0004

  /** Bit 30 of a FileRecord's size: this file's compression state is the
      opposite of the archive-wide one. */
  const FILE_INVERT_COMPRESSED: bv32 := 0x4000_0000

  /** Encoded sizes, in bytes. */
  const HEADER_SIZE: nat := 36
  const RECORD_SIZE: nat := 16

  datatype Header = Header(
    fileId: bv32,
    version: bv32,
    offset: bv32,
    archiveFlags: bv32,
    folderCount: bv32,
    fileCount: bv32,
    totalFolderNameLength: bv32,
    totalFileNameLength: bv32,
    fileFlags: bv32)

  /** `offset` points at this folder's file records (name included), from byte 0. */
  datatype FolderRecord = FolderRecord(nameHash: bv64, count: bv32, offset: bv32)

  /** `size` carries FILE_INVERT_COMPRESSED in bit 30; `offset` is from byte 0. */
  datatype FileRecord = FileRecord(nameHash: bv64, size: bv32, offset: bv32)

  // ---------------------------------------------------------------------
  // Little-endian integers

  function EncodeU32(x: bv32): (b: seq<bv8>)
    ensures |b| == 4
  {
    [(x & 0xFF) as bv8, ((x >> 8) & 0xFF) as bv8,
     ((x >> 16) & 0xFF) as bv8, ((x >> 24) & 0xFF) as bv8]
  }

  /** Reads the first four bytes of `b`, least significant first. */
  function DecodeU32(b: seq<bv8>): (x: bv32)
    requires |b| >= 4
  {
    (b[0] as bv32) | ((b[1] as bv32) << 8) | ((b[2] as bv32) << 16) | ((b[3] as bv32) << 24)
  }

  lemma U32RoundTrip(x: bv32)
    ensures DecodeU32(EncodeU32(x)) == x
  {
  }

  lemma U32DecodeEncode(b: seq<bv8>)
    requires |b| >= 4
    ensures EncodeU32(DecodeU32(b)) == b[..4]
  {
  }

  function EncodeU64(x: bv64): (b: seq<bv8>)
    ensures |b| == 8
  {
    [(x & 0xFF) as bv8, ((x >> 8) & 0xFF) as bv8,
     ((x >> 16) & 0xFF) as bv8, ((x >> 24) & 0xFF) as bv8,
     ((x >> 32) & 0xFF) as bv8, ((x >> 40) & 0xFF) as bv8,
     ((x >> 48) & 0xFF) as bv8, ((x >> 56) & 0xFF) as bv8]
  }

  function DecodeU64(b: seq<bv8>): (x: bv64)
    requires |b| >= 8
  {
    (b[0] as bv64) | ((b[1] as bv64) << 8) | ((b[2] as bv64) << 16) | ((b[3] as bv64) << 24)
    | ((b[4] as bv64) << 32) | ((b[5] as bv64) << 40) | ((b[6] as bv64) << 48) | ((b[7] as bv64) << 56)
  }

  lemma U64RoundTrip(x: bv64)
    ensures DecodeU64(EncodeU64(x)) == x
  {
  }

  lemma U64DecodeEncode(b: seq<bv8>)
    requires |b| >= 8
    ensures EncodeU64(DecodeU64(b)) == b[..8]
  {
  }

  // ---------------------------------------------------------------------
  // Records

  /** The header's nine words in on-disk order. */
  function HeaderFields(h: Header): (ws: seq<bv32>)
    ensures |ws| == 9
  {
    [h.fileId, h.version, h.offset, h.archiveFlags, h.folderCount, h.fileCount,
     h.totalFolderNameLength, h.totalFileNameLength, h.fileFlags]
  }

  /** Consecutive little-endian words. */
  function EncodeWords(ws: seq<bv32>): (b: seq<bv8>)
    ensures |b| == 4 * |ws|
  {
    if ws == [] then [] else EncodeU32(ws[0]) + EncodeWords(ws[1..])
  }

  function EncodeHeader(h: Header): (b: seq<bv8>)
    ensures |b| == HEADER_SIZE
  {
    EncodeWords(HeaderFields(h))
  }

  /** `n` consecutive little-endian words from the start of `b`. */
  function DecodeWords(b: seq<bv8>, n: nat): (ws: seq<bv32>)
    requires |b| >= 4 * n
    ensures |ws| == n
  {
    if n == 0 then [] else [DecodeU32(b)] + DecodeWords(b[4..], n - 1)
  }

  /** Reads a header from the start of `b`; a truncated input is rejected. */
  function DecodeHeader(b: seq<bv8>): (r: Option<Header>)
    ensures r.Some? <==> |b| >= HEADER_SIZE
  {
    if |b| < HEADER_SIZE then None
    else
      var ws := DecodeWords(b, 9);
      Some(Header(ws[0], ws[1], ws[2], ws[3], ws[4], ws[5], ws[6], ws[7], ws[8]))
  }

  function EncodeFolderRecord(f: FolderRecord): (b: seq<bv8>)
    ensures |b| == RECORD_SIZE
  {
    EncodeU64(f.nameHash) + EncodeU32(f.count) + EncodeU32(f.offset)
  }

  function DecodeFolderRecord(b: seq<bv8>): (r: Option<FolderRecord>)
    ensures r.Some? <==> |b| >= RECORD_SIZE
  {
    if |b| < RECORD_SIZE then None
    else Some(FolderRecord(DecodeU64(b), DecodeU32(b[8..]), DecodeU32(b[12..])))
  }

  function EncodeFileRecord(f: FileRecord): (b: seq<bv8>)
    ensures |b| == RECORD_SIZE
  {
    EncodeU64(f.nameHash) + EncodeU32(f.size) + EncodeU32(f.offset)
  }

  function DecodeFileRecord(b: seq<bv8>): (r: Option<FileRecord>)
    ensures r.Some? <==> |b| >= RECORD_SIZE
  {
    if |b| < RECORD_SIZE then None
    else Some(FileRecord(DecodeU64(b), DecodeU32(b[8..]), DecodeU32(b[12..])))
  }

  /** DecodeU32 reads only the first four bytes. */
  lemma DecodeU32Prefix(b: seq<bv8>, x: bv32)
    requires |b| >= 4 && b[..4] == EncodeU32(x)
    ensures DecodeU32(b) == x
  {
    assert b[0] == EncodeU32(x)[0] && b[1] == EncodeU32(x)[1];
    assert b[2] == EncodeU32(x)[2] && b[3] == EncodeU32(x)[3];
    U32RoundTrip(x);
  }

  lemma DecodeU32Same(a: seq<bv8>, b: seq<bv8>)
    requires |a| >= 4 && |b| >= 4 && a[..4] == b[..4]
    ensures DecodeU32(a) == DecodeU32(b)
  {
    assert a[0] == b[0] && a[1] == b[1] && a[2] == b[2] && a[3] == b[3] by {
      assert forall j | 0 <= j < 4 :: a[j] == a[..4][j] && b[j] == b[..4][j];
    }
  }

  lemma {:induction false} WordsRoundTrip(ws: seq<bv32>, rest: seq<bv8>)
    ensures DecodeWords(EncodeWords(ws) + rest, |ws|) == ws
  {
    if ws != [] {
      var tail := EncodeWords(ws[1..]) + rest;
      assert EncodeWords(ws) + rest == EncodeU32(ws[0]) + tail;
      U32Then(ws[0], tail);
      WordsRoundTrip(ws[1..], rest);
    }
  }

  /** A word followed by anything decodes to that word, and the rest starts
      four bytes on. */
  lemma U32Then(x: bv32, tail: seq<bv8>)
    ensures DecodeU32(EncodeU32(x) + tail) == x
    ensures (EncodeU32(x) + tail)[4..] == tail
  {
    DecodeU32Prefix(EncodeU32(x) + tail, x);
  }

  lemma {:induction false} WordsDecodeEncode(b: seq<bv8>, n: nat)
    requires |b| >= 4 * n
    ensures EncodeWords(DecodeWords(b, n)) == b[..4 * n]
  {
    if n > 0 {
      WordsDecodeEncode(b[4..], n - 1);
      U32DecodeEncode(b);
      var ws := DecodeWords(b, n);
      assert ws[1..] == DecodeWords(b[4..], n - 1);
      assert b[..4 * n] == b[..4] + b[4..][..4 * (n - 1)];
    }
  }

  lemma HeaderRoundTrip(h: Header)
    ensures DecodeHeader(EncodeHeader(h)) == Some(h)
  {
    WordsRoundTrip(HeaderFields(h), []);
    assert EncodeHeader(h) + [] == EncodeHeader(h);
  }

  lemma HeaderDecodeEncode(b: seq<bv8>)
    requires |b| >= HEADER_SIZE
    ensures DecodeHeader(b).Some? && EncodeHeader(DecodeHeader(b).value) == b[..HEADER_SIZE]
  {
    WordsDecodeEncode(b, 9);
    assert HeaderFields(DecodeHeader(b).value) == DecodeWords(b, 9);
  }

  lemma DecodeU64Prefix(b: seq<bv8>, x: bv64)
    requires |b| >= 8 && b[..8] == EncodeU64(x)
    ensures DecodeU64(b) == x
  {
    assert b[0] == EncodeU64(x)[0] && b[1] == EncodeU64(x)[1];
    assert b[2] == EncodeU64(x)[2] && b[3] == EncodeU64(x)[3];
    assert b[4] == EncodeU64(x)[4] && b[5] == EncodeU64(x)[5];
    assert b[6] == EncodeU64(x)[6] && b[7] == EncodeU64(x)[7];
    U64RoundTrip(x);
  }

  /** Both 16-byte records: an 8-byte hash, then two 4-byte words. */
  lemma RecordFields(r: seq<bv8>, hash: bv64, w0: bv32, w1: bv32)
    requires |r| >= RECORD_SIZE && r[..RECORD_SIZE] == EncodeU64(hash) + EncodeU32(w0) + EncodeU32(w1)
    ensures DecodeU64(r) == hash && DecodeU32(r[8..]) == w0 && DecodeU32(r[12..]) == w1
  {
    var b := EncodeU64(hash) + EncodeU32(w0) + EncodeU32(w1);
    assert r[..8] == b[..8] == EncodeU64(hash);
    assert r[8..][..4] == b[8..12] == EncodeU32(w0);
    assert r[12..][..4] == b[12..16] == EncodeU32(w1);
    DecodeU64Prefix(r, hash);
    DecodeU32Prefix(r[8..], w0);
    DecodeU32Prefix(r[12..], w1);
  }

  lemma FolderRecordRoundTrip(f: FolderRecord)
    ensures DecodeFolderRecord(EncodeFolderRecord(f)) == Some(f)
  {
    RecordFields(EncodeFolderRecord(f), f.nameHash, f.count, f.offset);
  }

  lemma FileRecordRoundTrip(f: FileRecord)
    ensures DecodeFileRecord(EncodeFileRecord(f)) == Some(f)
  {
    RecordFields(EncodeFileRecord(f), f.nameHash, f.size, f.offset);
  }

  lemma FolderRecordDecodeEncode(b: seq<bv8>)
    requires |b| >= RECORD_SIZE
    ensures DecodeFolderRecord(b).Some? && EncodeFolderRecord(DecodeFolderRecord(b).value) == b[..RECORD_SIZE]
  {
    var e := EncodeFolderRecord(DecodeFolderRecord(b).value);
    U64DecodeEncode(b);
    U32DecodeEncode(b[8..]);
    U32DecodeEncode(b[12..]);
    assert e[..8] == b[..8];
    assert e[8..12] == b[8..12];
    assert e[12..16] == b[12..16];
    assert e == e[..8] + e[8..12] + e[12..16];
    assert b[..RECORD_SIZE] == b[..8] + b[8..12] + b[12..16];
  }

  lemma FileRecordDecodeEncode(b: seq<bv8>)
    requires |b| >= RECORD_SIZE
    ensures DecodeFileRecord(b).Some? && EncodeFileRecord(DecodeFileRecord(b).value) == b[..RECORD_SIZE]
  {
    var e := EncodeFileRecord(DecodeFileRecord(b).value);
    U64DecodeEncode(b);
    U32DecodeEncode(b[8..]);
    U32DecodeEncode(b[12..]);
    assert e[..8] == b[..8];
    assert e[8..12] == b[8..12];
    assert e[12..16] == b[12..16];
    assert e == e[..8] + e[8..12] + e[12..16];
    assert b[..RECORD_SIZE] == b[..8] + b[8..12] + b[12..16];
  }

  // ---------------------------------------------------------------------
  // The folder-record table follows the header directly

  function EncodeFolderTable(folders: seq<FolderRecord>): (b: seq<bv8>)
    ensures |b| == RECORD_SIZE * |folders|
  {
    if folders == [] then [] else EncodeFolderRecord(folders[0]) + EncodeFolderTable(folders[1..])
  }

  lemma {:induction false} FolderTableAt(folders: seq<FolderRecord>, i: nat)
    requires i < |folders|
    ensures EncodeFolderTable(folders)[RECORD_SIZE * i..RECORD_SIZE * i + RECORD_SIZE]
         == EncodeFolderRecord(folders[i])
  {
    if i > 0 {
      FolderTableAt(folders[1..], i - 1);
      assert EncodeFolderTable(folders)[RECORD_SIZE * i..RECORD_SIZE * i + RECORD_SIZE]
          == EncodeFolderTable(folders[1..])[RECORD_SIZE * (i - 1)..RECORD_SIZE * (i - 1) + RECORD_SIZE];
    }
  }

  lemma FolderRecordPrefix(r: seq<bv8>, f: FolderRecord)
    requires |r| >= RECORD_SIZE && r[..RECORD_SIZE] == EncodeFolderRecord(f)
    ensures DecodeFolderRecord(r) == Some(f)
  {
    RecordFields(r, f.nameHash, f.count, f.offset);
  }

  /** The fixed folder-table offset is the header's encoded length. */
  lemma FolderOffsetIsHeaderSize(h: Header)
    ensures |EncodeHeader(h)| == BSA_FOLDER_RECORD_OFFSET as int == HEADER_SIZE
  {
  }

  lemma FolderSlotBytes(prefix: seq<bv8>, folders: seq<FolderRecord>, i: nat)
    requires i < |folders|
    ensures (prefix + EncodeFolderTable(folders))[|prefix| + RECORD_SIZE * i..][..RECORD_SIZE]
         == EncodeFolderRecord(folders[i])
  {
    FolderTableAt(folders, i);
    var tb := EncodeFolderTable(folders);
    var r := (prefix + tb)[|prefix| + RECORD_SIZE * i..];
    assert r[..RECORD_SIZE] == tb[RECORD_SIZE * i..RECORD_SIZE * i + RECORD_SIZE];
  }

  /** A header followed by its folder table: folder i is read back from
      HEADER_SIZE + 16 * i, that is from BSA_FOLDER_RECORD_OFFSET on. */
  lemma FolderRecordAfterHeader(h: Header, folders: seq<FolderRecord>, i: nat)
    requires i < |folders|
    ensures var b := EncodeHeader(h) + EncodeFolderTable(folders);
      DecodeFolderRecord(b[HEADER_SIZE + RECORD_SIZE * i..]) == Some(folders[i])
  {
    var hb := EncodeHeader(h);
    FolderSlotBytes(hb, folders, i);
    FolderRecordPrefix((hb + EncodeFolderTable(folders))[HEADER_SIZE + RECORD_SIZE * i..], folders[i]);
  }

  // ---------------------------------------------------------------------
  // Per-file compression state

  /** The archive-wide default: BSA_COMPRESSED in the header's archiveFlags. */
  predicate ArchiveCompressed(archiveFlags: bv32)
  {
    archiveFlags & BSA_COMPRESSED != 0
  }

  /** The file's FILE_INVERT_COMPRESSED bit. */
  predicate Inverted(size: bv32)
  {
    size & FILE_INVERT_COMPRESSED != 0
  }

  /** Whether the file whose FileRecord carries `size` is stored compressed:
      the archive-wide default, inverted when the file's bit is set. */
  predicate FileCompressed(archiveFlags: bv32, size: bv32)
  {
    ArchiveCompressed(archiveFlags) != Inverted(size)
  }

  /** The payload length: the size field with the inversion bit masked out. */
  function PayloadSize(size: bv32): (len: bv32)
    ensures len & FILE_INVERT_COMPRESSED == 0
    ensures len | (size & FILE_INVERT_COMPRESSED) == size
  {
    size & !FILE_INVERT_COMPRESSED
  }

  /** The size field with the inversion bit flipped. */
  function ToggleInvert(size: bv32): (toggled: bv32)
    ensures PayloadSize(toggled) == PayloadSize(size)
    ensures Inverted(toggled) == !Inverted(size)
  {
    size ^ FILE_INVERT_COMPRESSED
  }

  /** With the inversion bit clear the file follows the archive; with it set
      the file does the opposite. */
  lemma CompressionFollowsArchive(archiveFlags: bv32, size: bv32)
    ensures !Inverted(size) ==> (FileCompressed(archiveFlags, size) <==> archiveFlags & BSA_COMPRESSED != 0)
    ensures Inverted(size) ==> (FileCompressed(archiveFlags, size) <==> archiveFlags & BSA_COMPRESSED == 0)
  {
  }

  lemma ToggleFlipsCompression(archiveFlags: bv32, size: bv32)
    ensures FileCompressed(archiveFlags, ToggleInvert(size)) == !FileCompressed(archiveFlags, size)
    ensures ToggleInvert(ToggleInvert(size)) == size
  {
  }

  /** Masking never grows the value and is idempotent. */
  lemma PayloadSizeBounds(size: bv32)
    ensures PayloadSize(size) <= size
    ensures PayloadSize(PayloadSize(size)) == PayloadSize(size)
  {
  }

  /** A length below bit 30 is its own payload size, with no invert bit. */
  lemma LengthIsPayload(len: bv32)
    requires len & FILE_INVERT_COMPRESSED == 0
    ensures PayloadSize(len) == len && !Inverted(len)
  {
  }

  /** Setting the invert bit on such a length keeps the payload size. */
  lemma InvertedLengthIsPayload(len: bv32)
    requires len & FILE_INVERT_COMPRESSED == 0
    ensures PayloadSize(len | FILE_INVERT_COMPRESSED) == len && Inverted(len | FILE_INVERT_COMPRESSED)
  {
  }

  /** How a writer fills a size field: the payload length, plus the
      inversion bit exactly when the file's compression differs from the
      archive's default. The length must fit below bit 30. */
  function StoredSize(archiveCompressed: bool, len: bv32, compressed: bool): (size: bv32)
    requires len & FILE_INVERT_COMPRESSED == 0
    ensures PayloadSize(size) == len
    ensures Inverted(size) == (compressed != archiveCompressed)
  {
    if compressed == archiveCompressed then LengthIsPayload(len); len
    else InvertedLengthIsPayload(len); len | FILE_INVERT_COMPRESSED
  }

  /** Writing a size field and reading it back gives the length and the
      compression state that were written, and vice versa. */
  lemma StoredSizeRoundTrip(archiveFlags: bv32, len: bv32, compressed: bool, size: bv32)
    requires len & FILE_INVERT_COMPRESSED == 0
    ensures FileCompressed(archiveFlags, StoredSize(ArchiveCompressed(archiveFlags), len, compressed)) == compressed
    ensures StoredSize(ArchiveCompressed(archiveFlags), PayloadSize(size), FileCompressed(archiveFlags, size)) == size
  {
  }

  // ---------------------------------------------------------------------
  // path_comp and list::unique

  /** `path_comp`: two assets are the same entry when their paths are equal,
      character for character (no case folding). */
  predicate PathComp(first: Asset, second: Asset)
  {
    first.path == second.path
  }

  lemma PathCompIsEquivalence(a: Asset, b: Asset, c: Asset)
    ensures PathComp(a, a)
    ensures PathComp(a, b) ==> PathComp(b, a)
    ensures PathComp(a, b) && PathComp(b, c) ==> PathComp(a, c)
    ensures PathComp(a, b) <==> a.path == b.path
  {
  }

  /** Any difference in the paths, letter case included, makes two assets
      different entries; for example "Meshes/a.nif" and "meshes/a.nif". */
  lemma PathCompIsCaseSensitive(a: Asset, b: Asset)
    ensures a.path != b.path ==> !PathComp(a, b)
    ensures !PathComp(Asset("Meshes/a.nif", 0, 0), Asset("meshes/a.nif", 0, 0))
  {
    assert "Meshes/a.nif"[0] != "meshes/a.nif"[0];
  }

  predicate NoAdjacentDuplicates(assets: seq<Asset>)
  {
    forall i :: 0 <= i < |assets| - 1 ==> !PathComp(assets[i], assets[i + 1])
  }

  /** `list::unique(path_comp())`: of each run of consecutive assets with
      equal paths only the first is kept. */
  function Unique(assets: seq<Asset>): (kept: seq<Asset>)
    ensures |kept| <= |assets|
    ensures assets != [] ==> kept != [] && kept[0] == assets[0]
    ensures NoAdjacentDuplicates(kept)
    ensures forall a :: a in kept ==> a in assets
    decreases |assets|
  {
    if |assets| <= 1 then assets
    else if PathComp(assets[0], assets[1]) then Unique([assets[0]] + assets[2..])
    else [assets[0]] + Unique(assets[1..])
  }

  /** The set of paths present in `assets`. */
  function PathSet(assets: seq<Asset>): (paths: set<string>)
  {
    set a | a in assets :: a.path
  }

  lemma PathSetCons(x: Asset, rest: seq<Asset>)
    ensures PathSet([x] + rest) == {x.path} + PathSet(rest)
  {
    assert forall a :: a in [x] + rest <==> a == x || a in rest;
  }

  /** Unique drops no path and invents none. */
  lemma {:induction false} UniqueKeepsPaths(assets: seq<Asset>)
    ensures PathSet(Unique(assets)) == PathSet(assets)
    decreases |assets|
  {
    if |assets| > 1 {
      var x, y := assets[0], assets[1];
      assert assets == [x] + ([y] + assets[2..]);
      PathSetCons(x, [y] + assets[2..]);
      PathSetCons(y, assets[2..]);
      if PathComp(x, y) {
        UniqueKeepsPaths([x] + assets[2..]);
        PathSetCons(x, assets[2..]);
      } else {
        UniqueKeepsPaths(assets[1..]);
        PathSetCons(x, Unique(assets[1..]));
      }
    }
  }

  /** A list without adjacent duplicates is left as it is; so Unique is
      idempotent. */
  lemma {:induction false} UniqueOfUniqueIsIdentity(assets: seq<Asset>)
    requires NoAdjacentDuplicates(assets)
    ensures Unique(assets) == assets
    decreases |assets|
  {
    if |assets| > 1 {
      UniqueOfUniqueIsIdentity(assets[1..]);
    }
  }

  lemma UniqueIdempotent(assets: seq<Asset>)
    ensures Unique(Unique(assets)) == Unique(assets)
  {
    UniqueOfUniqueIsIdentity(Unique(assets));
  }

  /** Asset i starts a run of equal paths: it is the first asset, or its
      path differs from its predecessor's. */
  predicate StartsRun(assets: seq<Asset>, i: nat)
    requires i < |assets|
  {
    i == 0 || !PathComp(assets[i - 1], assets[i])
  }

  /** The assets from index `from` on that start a run, in input order. */
  function RunStarts(assets: seq<Asset>, from: nat): (starts: seq<Asset>)
    requires from <= |assets|
    decreases |assets| - from
  {
    if from == |assets| then []
    else (if StartsRun(assets, from) then [assets[from]] else []) + RunStarts(assets, from + 1)
  }

  /** Dropping the element before index 1 of `s`, or replacing it by one
      with the same path, does not change which later assets start runs. */
  lemma {:induction false} RunStartsShift(s: seq<Asset>, t: seq<Asset>, k: nat)
    requires |t| + 1 == |s| && 1 <= k <= |t|
    requires t[0].path == s[1].path
    requires forall j :: 1 <= j < |t| ==> t[j] == s[j + 1]
    ensures RunStarts(t, k) == RunStarts(s, k + 1)
    decreases |t| - k
  {
    if k < |t| {
      assert StartsRun(t, k) == StartsRun(s, k + 1);
      RunStartsShift(s, t, k + 1);
    }
  }

  lemma {:induction false} UniqueIsFirstThenRunStarts(s: seq<Asset>)
    requires s != []
    ensures Unique(s) == [s[0]] + RunStarts(s, 1)
    decreases |s|
  {
    if |s| > 1 {
      if PathComp(s[0], s[1]) {
        var t := [s[0]] + s[2..];
        UniqueIsFirstThenRunStarts(t);
        RunStartsShift(s, t, 1);
        assert !StartsRun(s, 1);
      } else {
        UniqueIsFirstThenRunStarts(s[1..]);
        RunStartsShift(s, s[1..], 1);
        assert StartsRun(s, 1);
      }
    }
  }

  /** `list::unique(path_comp())` keeps exactly the first asset of every
      run of consecutive assets with equal paths, in input order, so the
      survivor's size and offset are those of the run's first asset. */
  lemma UniqueKeepsRunStarts(assets: seq<Asset>)
    ensures Unique(assets) == RunStarts(assets, 0)
  {
    if assets != [] {
      UniqueIsFirstThenRunStarts(assets);
      assert StartsRun(assets, 0);
    }
  }

  // ---------------------------------------------------------------------
  // Recognising a Tes4-type archive

  /** Inferred from the constants: the first word is BSA_MAGIC and the second
      a supported version. The body of `IsBSA` itself is not part of this
      model. */
  predicate IsTes4Header(prefix: seq<bv8>)
  {
    |prefix| >= 8 && DecodeU32(prefix) == BSA_MAGIC
    && (DecodeU32(prefix[4..]) == BSA_VERSION_TES4 || DecodeU32(prefix[4..]) == BSA_VERSION_TES5)
  }

  lemma MagicBytes()
    ensures EncodeU32(BSA_MAGIC) == [0x42, 0x53, 0x41, 0x00]
    ensures BSA_VERSION_TES4 != BSA_VERSION_TES5
  {
  }

  lemma IsTes4HeaderOfEncoded(h: Header)
    ensures IsTes4Header(EncodeHeader(h)) <==>
      h.fileId == BSA_MAGIC && (h.version == BSA_VERSION_TES4 || h.version == BSA_VERSION_TES5)
  {
    var b := EncodeHeader(h);
    HeaderRoundTrip(h);
    var ws := DecodeWords(b, 9);
    assert ws[0] == DecodeU32(b);
    assert ws[1..] == DecodeWords(b[4..], 8);
    assert ws[1] == DecodeU32(b[4..]);
  }

  /** Only the first eight bytes are looked at. */
  lemma IsTes4HeaderReadsPrefix(b: seq<bv8>)
    requires |b| >= 8
    ensures IsTes4Header(b) <==> IsTes4Header(b[..8])
  {
    DecodeU32Same(b, b[..8]);
    DecodeU32Same(b[4..], b[..8][4..]);
  }
}

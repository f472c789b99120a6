# libbsa: the .NET wrapper and the Tes4 archive layout

libbsa reads and writes Bethesda BSA archives. This project models two
parts of it.

The first is the C++/CLI wrapper `BSANET` (`cli-windows/libbsa/libwrapper.cpp`):
- the library-version check and the return codes;
- the process-wide last-error string and `c_error`, which records it;
- the validation of the `bsa_save` flag word, which splits the word into a
  version bit and a compression part;
- the result buffer (`extAssets`, `extAssetsNum`) that `bsa_get_assets` and
  `bsa_extract_assets` free and refill;
- the null checks of the remaining entry points.

The second is the Tes4-family layout (`src/tes4bsa.h`):
- the magic and version constants;
- the 36-byte header and the two 16-byte records, with little-endian
  encoders and decoders;
- the fixed folder-record offset;
- the per-file compression rule carried by bit 30 of a file's size field;
- `path_comp`, the comparison used with `list::unique`.

The archive engine behind a handle is not modelled. Its results come in as
parameters: opening, regular-expression matching, `Save` and `Extract`.

Files:
- `generic_bsa.dfy` (module `GenericBsa`): `Option` and the asset record
  shared by both parts.
- `tes4bsa.dfy` (module `Tes4Bsa`): the on-disk layout, the compression rule
  and `path_comp`.
- `libwrapper.dfy` (module `LibWrapper`): the wrapper. The flag checks and
  replies are pure functions. `Handle` and `Wrapper` are classes whose
  methods update the handle's buffer and the shared last-error slot.

## Model

| member | source | states |
|---|---|---|
| LibWrapper.IsCompatible | cli-windows/libbsa/libwrapper.cpp:95-100 | Compatible exactly when the version asked for is 2.0.0 |
| LibWrapper.CompatibleOnlyWithSelf | cli-windows/libbsa/libwrapper.cpp:45-47 | The library's own version constants pass the check, and any triple that passes equals them |
| LibWrapper.LastError.constructor | cli-windows/libbsa/libwrapper.cpp:49 | The last-error slot starts empty, like `extErrorString = nullptr` |
| LibWrapper.CError | cli-windows/libbsa/libwrapper.cpp:83-86 | Returns its code unchanged and records its message as the last error |
| LibWrapper.AtMostOneBit | cli-windows/libbsa/libwrapper.cpp:198 | No contract of its own: the code's test `x & (x - 1) == 0`; see SingleBitIsOneOfThe32 |
| LibWrapper.SingleBit | cli-windows/libbsa/libwrapper.cpp:198 | No contract of its own: a non-zero word passing that test; see SingleBitIsOneOfThe32 |
| LibWrapper.SingleBitIsOneOfThe32 | cli-windows/libbsa/libwrapper.cpp:197-199 | The code's test `x & (x - 1) == 0` holds exactly for 0 and the 32 words with one bit set, listed out in `ONE_BIT_WORDS` |
| LibWrapper.CheckVersions | cli-windows/libbsa/libwrapper.cpp:178-194 | A version error happens exactly for TES3 without LEVEL_0 or any two version bits. The TES3 message wins whenever TES3 lacks LEVEL_0; otherwise the error is the multiple-versions one |
| LibWrapper.CheckFlagVersions | cli-windows/libbsa/libwrapper.cpp:175-194 | No contract of its own; see CheckFlagVersionsSpec, Tes3CheckFirst and MultipleVersionsRejected |
| LibWrapper.CheckFlagVersionsSpec | cli-windows/libbsa/libwrapper.cpp:175-194 | The version checks pass exactly when TES3 comes with LEVEL_0 and the version part is 0, TES3, TES4 or TES5; `version` is then that part |
| LibWrapper.CheckCompression | cli-windows/libbsa/libwrapper.cpp:197-199 | The last check as written passes exactly when the compression part is neither 0 nor one of the 32 one-bit words, i.e. has at least two bits. It then hands on both parts unchanged, and otherwise reports the bad-compression error |
| LibWrapper.CheckSaveFlags | cli-windows/libbsa/libwrapper.cpp:174-199 | No contract of its own; see CheckSaveFlagsAccepts, Tes3CheckFirst, MultipleVersionsRejected and SingleCompressionLevelRejected |
| LibWrapper.CheckSaveFlagsAccepts | cli-windows/libbsa/libwrapper.cpp:170-199 | The flag checks pass exactly when the version checks pass and the non-version part is neither 0 nor a one-bit word, i.e. has at least two bits. Then the engine gets the masked version part and the word with it cleared (`flags ^ version`) |
| LibWrapper.Tes3CheckFirst | cli-windows/libbsa/libwrapper.cpp:178-179 | TES3 without LEVEL_0 is refused with the Morrowind message, whatever other version bits are set |
| LibWrapper.MultipleVersionsRejected | cli-windows/libbsa/libwrapper.cpp:183-194 | Past the TES3 check, two or more version bits are refused with the multiple-versions message |
| LibWrapper.SingleCompressionLevelRejected | cli-windows/libbsa/libwrapper.cpp:197-199 | With passing version bits, a non-version part that is 0 or one of the 32 one-bit words is refused as an invalid compression level |
| LibWrapper.DocumentedFlagsRejected | cli-windows/libbsa/libwrapper.cpp:197-199 | TES4\|LEVEL_5 and TES3\|LEVEL_0 are both refused as written |
| LibWrapper.CheckCompressionIntended | cli-windows/libbsa/libwrapper.cpp:197-199 | Corrected last check: accepts exactly a compression part that is one of the 32 one-bit words, handing on the version and compression unchanged; anything else gets the bad-compression error |
| LibWrapper.CheckSaveFlagsIntended | cli-windows/libbsa/libwrapper.cpp:174-199 | No contract of its own; see CheckSaveFlagsIntendedAccepts and IntendedAcceptsDocumentedFlags |
| LibWrapper.CheckSaveFlagsIntendedAccepts | cli-windows/libbsa/libwrapper.cpp:170-199 | Corrected checks accept exactly the words with passing version bits whose non-version part is one of the 32 one-bit words, handing on the same two parts |
| LibWrapper.IntendedAcceptsDocumentedFlags | cli-windows/libbsa/libwrapper.cpp:67-81 | Corrected checks accept every single level (and NOCHANGE) with no version, TES4 or TES5, and TES3\|LEVEL_0 |
| LibWrapper.EngineReply | cli-windows/libbsa/libwrapper.cpp:207-214 | A completed call returns OK and records nothing. A `libbsa::error` returns its own code and records its own message. An I/O failure returns FILESYSTEM_ERROR and records its message |
| LibWrapper.SaveReply | cli-windows/libbsa/libwrapper.cpp:170-215 | No contract of its own; see SaveChecksBeforeEngine, SaveReportsEngine, SaveSucceeds and SaveFlagMessages |
| LibWrapper.SaveChecksBeforeEngine | cli-windows/libbsa/libwrapper.cpp:170-205 | Unless the handle and path are given and every flag check passes, `bsa_save` returns INVALID_ARGS without depending on the engine. A missing handle or path reports "Null pointer passed." before any flag check |
| LibWrapper.SaveReportsEngine | cli-windows/libbsa/libwrapper.cpp:204-214 | With the checks passed, a completed save gives OK with nothing recorded. A libbsa error gives its own code and message. An I/O failure gives FILESYSTEM_ERROR with its message |
| LibWrapper.SaveSucceeds | cli-windows/libbsa/libwrapper.cpp:170-215 | No error is recorded exactly when the handle and path are given, the flags pass, and the engine's save completes |
| LibWrapper.FlagErrorMessage | cli-windows/libbsa/libwrapper.cpp:178-199 | No contract of its own: the three refusal texts of `bsa_save`; see SaveFlagMessages |
| LibWrapper.SaveFlagMessages | cli-windows/libbsa/libwrapper.cpp:178-199 | The recorded messages: the Morrowind text for TES3 without LEVEL_0, and the invalid-level text for TES4\|LEVEL_5 |
| LibWrapper.Handle.constructor | cli-windows/libbsa/libwrapper.cpp:150-155 | A new handle has no buffer and a zero count. This initial state is assumed of `_bsa_handle_int`, whose definition is not part of this model (see Left out) |
| LibWrapper.Handle.FreeExtAssets | cli-windows/libbsa/libwrapper.cpp:235-242 | Afterwards no buffer is live and the handle is consistent. The count is reset only when a buffer was live |
| LibWrapper.Handle.FillExtAssets | cli-windows/libbsa/libwrapper.cpp:265-279 | Called only after the buffer is released, as both callers do. The count becomes the number of matches. Either the allocation fails and no buffer is live, or a fresh buffer holds the match paths in order. Either way the handle stays consistent |
| LibWrapper.Wrapper.constructor | cli-windows/libbsa/libwrapper.h:85-89 | A new wrapper has no handle |
| LibWrapper.Wrapper.Open | cli-windows/libbsa/libwrapper.cpp:135-165 | A missing path gives INVALID_ARGS. On success a fresh, empty handle is installed with OK. On an engine error the old handle stays and the error is reported as in `bsa_save` |
| LibWrapper.Wrapper.Save | cli-windows/libbsa/libwrapper.cpp:170-215 | Returns the code of `SaveReply` and records its message, if any |
| LibWrapper.Wrapper.GetAssets | cli-windows/libbsa/libwrapper.cpp:231-292 | Null checks, then the old buffer is freed. A bad pattern gives INVALID_ARGS with the regex message; no match gives OK with no buffer. Otherwise the buffer holds the match paths in order with the count equal to the number of matches, or NO_MEM with the count set and no buffer |
| LibWrapper.Wrapper.ExtractAssets | cli-windows/libbsa/libwrapper.cpp:347-420 | As `GetAssets`, with `Extract` run first on a non-empty match list. A libbsa error from it is reported before any refill; an I/O failure from it escapes |
| LibWrapper.Wrapper.SetAssets | cli-windows/libbsa/libwrapper.cpp:315-320 | INVALID_ARGS exactly on a missing handle or list, otherwise OK; the handle is not touched |
| LibWrapper.Wrapper.AddAsset | cli-windows/libbsa/libwrapper.cpp:323-328 | INVALID_ARGS exactly on a missing handle (the asset is not checked), otherwise OK |
| LibWrapper.Wrapper.RemoveAsset | cli-windows/libbsa/libwrapper.cpp:331-336 | INVALID_ARGS exactly on a missing handle or path, otherwise OK |
| LibWrapper.Wrapper.GetErrorMessage | cli-windows/libbsa/libwrapper.cpp:116-123 | INVALID_ARGS on a missing output argument, otherwise OK with the last error unchanged |
| LibWrapper.Wrapper.ContainsAsset | cli-windows/libbsa/libwrapper.cpp:295-307 | INVALID_ARGS on a missing handle, path or result, otherwise OK |
| LibWrapper.Wrapper.ExtractAsset | cli-windows/libbsa/libwrapper.cpp:423-442 | Null checks, then the engine's outcome: OK, the libbsa error's code and message, or an escaping I/O failure |
| Tes4Bsa.EncodeU32 | src/tes4bsa.h:55-77 | Four bytes, least significant first; see U32RoundTrip, U32DecodeEncode and MagicBytes |
| Tes4Bsa.DecodeU32 | src/tes4bsa.h:55-77 | No contract of its own: reads four bytes least significant first; see U32RoundTrip and U32DecodeEncode |
| Tes4Bsa.U32RoundTrip | src/tes4bsa.h:55-77 | A 32-bit field decodes back from its four little-endian bytes |
| Tes4Bsa.U32DecodeEncode | src/tes4bsa.h:55-77 | Any four bytes re-encode to themselves after decoding |
| Tes4Bsa.EncodeU64 | src/tes4bsa.h:67-77 | Eight bytes, least significant first; see U64RoundTrip and U64DecodeEncode |
| Tes4Bsa.DecodeU64 | src/tes4bsa.h:67-77 | No contract of its own: reads eight bytes least significant first; see U64RoundTrip and U64DecodeEncode |
| Tes4Bsa.U64RoundTrip | src/tes4bsa.h:67-77 | A 64-bit hash decodes back from its eight little-endian bytes |
| Tes4Bsa.U64DecodeEncode | src/tes4bsa.h:67-77 | Any eight bytes re-encode to themselves after decoding |
| Tes4Bsa.EncodeHeader | src/tes4bsa.h:55-65 | A header encodes to exactly 36 bytes |
| Tes4Bsa.DecodeHeader | src/tes4bsa.h:55-65 | A header is read exactly when at least 36 bytes are present |
| Tes4Bsa.WordsRoundTrip | src/tes4bsa.h:55-65 | Consecutive words decode back from their encoding, whatever follows them |
| Tes4Bsa.HeaderFields | src/tes4bsa.h:55-65 | The nine header fields in declaration order; see HeaderRoundTrip and HeaderDecodeEncode |
| Tes4Bsa.HeaderRoundTrip | src/tes4bsa.h:55-65 | Decoding an encoded header gives the same nine fields |
| Tes4Bsa.HeaderDecodeEncode | src/tes4bsa.h:55-65 | Any 36 bytes decode to a header that re-encodes to them |
| Tes4Bsa.EncodeFolderRecord | src/tes4bsa.h:67-71 | A folder record takes 16 bytes; see FolderRecordRoundTrip |
| Tes4Bsa.DecodeFolderRecord | src/tes4bsa.h:67-71 | A folder record is read exactly when 16 bytes are present; see FolderRecordDecodeEncode |
| Tes4Bsa.EncodeFileRecord | src/tes4bsa.h:73-77 | A file record takes 16 bytes; see FileRecordRoundTrip |
| Tes4Bsa.DecodeFileRecord | src/tes4bsa.h:73-77 | A file record is read exactly when 16 bytes are present; see FileRecordDecodeEncode |
| Tes4Bsa.FolderRecordRoundTrip | src/tes4bsa.h:67-71 | A folder record (hash, count, offset) survives its 16-byte encoding |
| Tes4Bsa.FileRecordRoundTrip | src/tes4bsa.h:73-77 | A file record (hash, size, offset) survives its 16-byte encoding |
| Tes4Bsa.FolderRecordDecodeEncode | src/tes4bsa.h:67-71 | Any 16 bytes decode to a folder record that re-encodes to them |
| Tes4Bsa.FileRecordDecodeEncode | src/tes4bsa.h:73-77 | Any 16 bytes decode to a file record that re-encodes to them |
| Tes4Bsa.EncodeFolderTable | src/tes4bsa.h:67-71 | A table of folder records takes 16 bytes per record |
| Tes4Bsa.FolderTableAt | src/tes4bsa.h:67-71 | Record i of a table occupies bytes 16i to 16i+16 |
| Tes4Bsa.FolderOffsetIsHeaderSize | src/tes4bsa.h:49 | BSA_FOLDER_RECORD_OFFSET equals the header's encoded length |
| Tes4Bsa.FolderRecordAfterHeader | src/tes4bsa.h:49-71 | In a header followed by its folder table, folder i is read back from offset 36 + 16i |
| Tes4Bsa.PayloadSize | src/tes4bsa.h:53 | The length has bit 30 clear, and putting the size's own bit 30 back gives the size |
| Tes4Bsa.ToggleInvert | src/tes4bsa.h:53 | Flipping FILE_INVERT_COMPRESSED keeps the payload length and flips the invert bit |
| Tes4Bsa.ArchiveCompressed | src/tes4bsa.h:51 | No contract of its own: BSA_COMPRESSED set in archiveFlags; see CompressionFollowsArchive |
| Tes4Bsa.Inverted | src/tes4bsa.h:53 | No contract of its own: FILE_INVERT_COMPRESSED set in a size field; see ToggleInvert and StoredSize |
| Tes4Bsa.FileCompressed | src/tes4bsa.h:51-53 | No contract of its own; see CompressionFollowsArchive and ToggleFlipsCompression |
| Tes4Bsa.CompressionFollowsArchive | src/tes4bsa.h:51-53 | With the invert bit clear a file is compressed exactly when the archive is; with it set, exactly when the archive is not |
| Tes4Bsa.ToggleFlipsCompression | src/tes4bsa.h:53 | Toggling the invert bit flips the file's compression; toggling twice restores the size |
| Tes4Bsa.PayloadSizeBounds | src/tes4bsa.h:53 | Masking never increases the size and is idempotent |
| Tes4Bsa.StoredSize | src/tes4bsa.h:51-53 | A size field built from a length and a compression choice reads back that length and sets the invert bit exactly when the choice differs from the archive default |
| Tes4Bsa.StoredSizeRoundTrip | src/tes4bsa.h:51-53 | Building then reading a size field gives back the compression choice. Reading then building gives back the size |
| Tes4Bsa.PathComp | src/tes4bsa.h:97-102 | No contract of its own; see PathCompIsEquivalence and PathCompIsCaseSensitive |
| Tes4Bsa.PathCompIsEquivalence | src/tes4bsa.h:97-102 | `path_comp` is reflexive, symmetric and transitive, and holds exactly when the paths are equal |
| Tes4Bsa.PathCompIsCaseSensitive | src/tes4bsa.h:97-102 | Any two assets whose paths differ, letter case included, are different entries; for example "Meshes/a.nif" and "meshes/a.nif" |
| Tes4Bsa.Unique | src/tes4bsa.h:96-102 | `list::unique(path_comp())` keeps the first asset, never grows the list, keeps only assets from the input and leaves no two neighbours with equal paths. Which assets survive is pinned down by UniqueKeepsRunStarts |
| Tes4Bsa.UniqueKeepsRunStarts | src/tes4bsa.h:96-102 | Unique is exactly the in-order list of the assets that start a run: asset 0 and every asset whose path differs from its predecessor's. Of each run of equal paths the first asset, with its size and offset, survives |
| Tes4Bsa.UniqueKeepsPaths | src/tes4bsa.h:96-102 | Unique keeps every path present in the input and adds none |
| Tes4Bsa.UniqueOfUniqueIsIdentity | src/tes4bsa.h:96-102 | A list without adjacent duplicates is left unchanged |
| Tes4Bsa.UniqueIdempotent | src/tes4bsa.h:96-102 | Applying Unique twice is the same as once |
| Tes4Bsa.MagicBytes | src/tes4bsa.h:45-47 | The magic is the bytes 'B','S','A',0 in little-endian order, and the two version constants differ |
| Tes4Bsa.IsTes4Header | src/tes4bsa.h:104-105 | Inferred, no contract of its own; see IsTes4HeaderOfEncoded and IsTes4HeaderReadsPrefix |
| Tes4Bsa.IsTes4HeaderOfEncoded | src/tes4bsa.h:45-47 | An encoded header is recognised exactly when its fileId is the magic and its version is 0x67 or 0x68 |
| Tes4Bsa.IsTes4HeaderReadsPrefix | src/tes4bsa.h:104-105 | Recognition looks only at the first eight bytes |
| GenericBsa.Paths | cli-windows/libbsa/libwrapper.cpp:270-273 | The path list is as long as the asset list, and entry i is asset i's path |

## Left out

- `bsa_get_version`: it assigns to by-value tracking handles, so the caller
  observes nothing. There is no effect to model.
- `bsa_close`: it deletes the handle but leaves `bh` pointing at it. A
  dangling pointer has no counterpart in Dafny's memory model.
- `bsa_cleanup`: it calls `delete[]` on a string that may be a literal. This
  is raw memory management.
- The conversions to .NET arrays and strings at the end of `bsa_get_assets`
  and `bsa_extract_assets`. Their results go to by-value parameters and never
  reach the caller, so results are observed through the handle's buffer.
- `Marshal::StringToHGlobalAnsi`, the locale and UTF-8 facet setup in
  `bsa_open`, and the `delete[]` of each buffer entry. These are interop and
  memory management; freeing is modelled as dropping the buffer.
- Regular-expression compilation and matching (POSIX extended,
  case-insensitive), and the engine's `GetMatchingAssets`. They appear only
  through `RegexOutcome`.
- `IsBSA` for both formats, the archive constructors, `Save`, `Extract`,
  `HasAsset` and `FixPath`. They are in engine files that are not part of
  this model and appear only through `EngineOutcome`. `Wrapper.Open` does
  not distinguish the Morrowind from the Tes4 handle.
- `ToNewCString`: each buffer entry is taken to be a copy of the asset's
  path. A `bad_alloc` or libbsa error while copying one entry is not
  modelled; only the allocation of the pointer array may fail (`noMemory`).
- `HashString`, `CalcHash` and `ReadData` with zlib: they are only declared
  in `src/tes4bsa.h`. Hashes are opaque 64-bit values in the records.
- `IsTes4Header`: the body of `IsBSA` is not part of this model. The
  predicate is inferred from the magic and version constants.
- `hash_comp`: only declared.
- `src/genericbsa.h` is not part of this model. `GenericBsa.Asset` keeps only
  the fields of `BsaAsset` that the modelled code reads.
- Handle.constructor: that a new handle has a null `extAssets` and a zero
  `extAssetsNum` is assumed. `bsa_open` (cli-windows/libbsa/libwrapper.cpp:150-155)
  only calls the archive constructors. The initialisation belongs to
  `_bsa_handle_int` in `src/genericbsa.h`, which is not part of this model.
- Other exceptions: `EngineOutcome` and `RegexOutcome` cover only the
  exceptions the wrapper catches. These are `libbsa::error` and
  `ios_base::failure` around the engine calls, and `boost::regex_error`
  around the pattern.
  - Anything else thrown by the archive constructors or `Save` escapes
    `bsa_open` and `bsa_save`. Examples are `bad_alloc` and the filesystem
    library's errors.
  - So do all exceptions from `GetMatchingAssets`, `FixPath` and `HasAsset`,
    which run outside any `try`.
  - `Extract` in `bsa_extract_assets` lets everything but `libbsa::error`
    through. The model keeps only the `ios_base::failure` case (`Escaped`).
  - The model does not capture these escapes. SaveSucceeds' "exactly when"
    holds only for engine calls that end in one of the modelled outcomes.
- Wrapper.constructor: `extErrorString` is one process-wide global, but a
  `Wrapper` takes its `LastError` slot as an argument. That all wrappers
  share one slot is up to the caller and is not enforced by the model.
- `c_error` stores the `e.what()` pointer in the global, and that pointer
  dangles once the `catch` block ends. The model records the message by
  value, as if it were copied.
- Integer widths: flag words, header fields and sizes are 32-bit
  bit-vectors and hashes 64-bit ones. Return codes and counts are
  unbounded naturals, because no arithmetic is done on them.

## Findings

| source | as written | input that shows it | evidently intended | confidence | as-written member | corrected member |
|---|---|---|---|---|---|---|
| cli-windows/libbsa/libwrapper.cpp:197-199 | `if (!(compression & (compression - 1)))` refuses a compression part that is 0 or one of the 32 one-bit words (SingleBitIsOneOfThe32, SingleCompressionLevelRejected) | `LIBBSA_VERSION_TES4 \| LIBBSA_COMPRESS_LEVEL_5` and `LIBBSA_VERSION_TES3 \| LIBBSA_COMPRESS_LEVEL_0` are refused with "Invalid compression level specified." | The header (cli-windows/libbsa/libwrapper.h:45) documents the compression flags as "Only one should be specified", so exactly one compression bit should be accepted | high; not executed | LibWrapper.DocumentedFlagsRejected | LibWrapper.CheckSaveFlagsIntendedAccepts |

`Wrapper.Save` and `SaveReply` keep the check as written (`CheckSaveFlags`),
because that is what the wrapper does. `CheckSaveFlagsIntended` is the
corrected check with its characterisation proved beside it.

/** The managed wrapper around a libbsa handle: the library-version check,
    the return codes and last-error slot, the validation of `bsa_save`'s
    flag word, and the result buffer that `bsa_get_assets` and
    `bsa_extract_assets` fill. The archive engine behind the handle (open,
    regex matching, extraction, saving) appears only through the outcomes it
    produces, given as parameters. */
module LibWrapper {
  import opened GenericBsa

  // ---------------------------------------------------------------------
  // Library version

  const LIBBSA_VERSION_MAJOR: nat := 2
  const LIBBSA_VERSION_MINOR: nat := 0
  const LIBBSA_VERSION_PATCH: nat := 0

  /** `bsa_is_compatible`: only version 2.0.0 is accepted. */
  function IsCompatible(major: nat, minor: nat, patch: nat): (compatible: bool)
    ensures compatible <==> (major, minor, patch) == (2, 0, 0)
  {
    major == 2 && minor == 0 && patch == 0
  }

  /** The library's own version passes its own check, and nothing else does. */
  lemma CompatibleOnlyWithSelf(major: nat, minor: nat, patch: nat)
    ensures IsCompatible(LIBBSA_VERSION_MAJOR, LIBBSA_VERSION_MINOR, LIBBSA_VERSION_PATCH)
    ensures IsCompatible(major, minor, patch) ==>
      major == LIBBSA_VERSION_MAJOR && minor == LIBBSA_VERSION_MINOR && patch == LIBBSA_VERSION_PATCH
  {
  }

  // ---------------------------------------------------------------------
  // Return codes and the last error message

  const LIBBSA_OK: nat := 0
  const LIBBSA_ERROR_INVALID_ARGS: nat := 1
  const LIBBSA_ERROR_NO_MEM: nat := 2
  const LIBBSA_ERROR_FILESYSTEM_ERROR: nat := 3
  const LIBBSA_ERROR_BAD_STRING: nat := 4
  const LIBBSA_ERROR_ZLIB_ERROR: nat := 5
  const LIBBSA_ERROR_PARSE_FAIL: nat := 6
  const LIBBSA_RETURN_MAX: nat := LIBBSA_ERROR_PARSE_FAIL

  const NULL_ARGUMENT_MESSAGE := "Null pointer passed."
  const UNCOMPRESSIBLE_TES3_MESSAGE := "Morrowind BSAs cannot be compressed."
  const MULTIPLE_VERSIONS_MESSAGE := "Cannot specify more than one version."
  const BAD_COMPRESSION_MESSAGE := "Invalid compression level specified."

  /** `extErrorString`: one process-wide slot, shared by every wrapper. */
  class LastError {
    var message: Option<string>

    constructor ()
      ensures message == None
    {
      message := None;
    }
  }

  /** `c_error`: record `what` as the last error and hand `code` back. */
  method CError(slot: LastError, code: nat, what: string) returns (r: nat)
    modifies slot
    ensures r == code
    ensures slot.message == Some(what)
  {
    slot.message := Some(what);
    r := code;
  }

  // ---------------------------------------------------------------------
  // Save flags

  const LIBBSA_VERSION_TES3: bv32 := 0x0000_0001
  const LIBBSA_VERSION_TES4: bv32 := 0x0000_0002
  const LIBBSA_VERSION_TES5: bv32 := 0x0000_0004
  const LIBBSA_COMPRESS_LEVEL_0: bv32 := 0x0000_0010
  const LIBBSA_COMPRESS_LEVEL_1: bv32 := 0x0000_0020
  const LIBBSA_COMPRESS_LEVEL_2: bv32 := 0x0000_0040
  const LIBBSA_COMPRESS_LEVEL_3: bv32 := 0x0000_0080
  const LIBBSA_COMPRESS_LEVEL_4: bv32 := 0x0000_0100
  const LIBBSA_COMPRESS_LEVEL_5: bv32 := 0x0000_0200
  const LIBBSA_COMPRESS_LEVEL_6: bv32 := 0x0000_0400
  const LIBBSA_COMPRESS_LEVEL_7: bv32 := 0x0000_0800
  const LIBBSA_COMPRESS_LEVEL_8: bv32 := 0x0000_1000
  const LIBBSA_COMPRESS_LEVEL_9: bv32 := 0x0000_2000
  const LIBBSA_COMPRESS_LEVEL_NOCHANGE: bv32 := 0x0000_4000

  const VERSION_MASK: bv32 := 0x0000_0007

  /** The compression test of `bsa_save`: clearing the lowest set bit of
      `x` leaves nothing, so `x` has no bit or exactly one bit set. */
  predicate AtMostOneBit(x: bv32)
  {
    x & (x - 1) == 0
  }

  /** Exactly one bit of `x` is set: `x` is non-zero and clearing its lowest
      set bit leaves nothing. */
  predicate SingleBit(x: bv32)
  {
    x != 0 && AtMostOneBit(x)
  }

  /** The 32 words with exactly one bit set, written out. */
  const ONE_BIT_WORDS: set<bv32> := {
    0x0000_0001, 0x0000_0002, 0x0000_0004, 0x0000_0008,
    0x0000_0010, 0x0000_0020, 0x0000_0040, 0x0000_0080,
    0x0000_0100, 0x0000_0200, 0x0000_0400, 0x0000_0800,
    0x0000_1000, 0x0000_2000, 0x0000_4000, 0x0000_8000,
    0x0001_0000, 0x0002_0000, 0x0004_0000, 0x0008_0000,
    0x0010_0000, 0x0020_0000, 0x0040_0000, 0x0080_0000,
    0x0100_0000, 0x0200_0000, 0x0400_0000, 0x0800_0000,
    0x1000_0000, 0x2000_0000, 0x4000_0000, 0x8000_0000}

  /** The code's bit trick means what it is meant to: `x & (x - 1) == 0`
      holds exactly for 0 and the 32 one-bit words. */
  lemma SingleBitIsOneOfThe32(x: bv32)
    ensures SingleBit(x) <==> x in ONE_BIT_WORDS
    ensures AtMostOneBit(x) <==> x == 0 || x in ONE_BIT_WORDS
  {
  }

  /** The three ways the flag checks of `bsa_save` refuse a flag word; each
      is reported as INVALID_ARGS with its own message. */
  datatype FlagError = Tes3Compressed | MultipleVersions | BadCompression

  function FlagErrorMessage(e: FlagError): (message: string)
  {
    match e
    case Tes3Compressed => UNCOMPRESSIBLE_TES3_MESSAGE
    case MultipleVersions => MULTIPLE_VERSIONS_MESSAGE
    case BadCompression => BAD_COMPRESSION_MESSAGE
  }

  /** The outcome of the version checks in `bsa_save`: the version word
      they settle on, or the error. */
  datatype VersionCheck = Version(bit: bv32) | VersionError(error: FlagError)

  /** The outcome of all flag checks in `bsa_save`: the version and
      compression words handed to the engine, or the error. */
  datatype FlagCheck = Accepted(version: bv32, compression: bv32) | Rejected(error: FlagError)

  /** The version checks of `bsa_save`, in the code's order, on the four flag
      bits they test: TES3 without COMPRESS_LEVEL_0 is refused first; then
      `version` collects TES3, TES4 and TES5 in turn and refuses a second
      one. */
  function CheckVersions(tes3: bool, level0: bool, tes4: bool, tes5: bool): (r: VersionCheck)
    ensures r.VersionError? <==> (tes3 && !level0) || (tes3 && tes4) || (tes3 && tes5) || (tes4 && tes5)
    ensures r.VersionError? && tes3 && !level0 ==> r.error == Tes3Compressed
    ensures r.VersionError? && !(tes3 && !level0) ==> r.error == MultipleVersions
  {
    if tes3 && !level0 then VersionError(Tes3Compressed)
    else
      var afterTes3: bv32 := if tes3 then LIBBSA_VERSION_TES3 else 0;
      if tes4 && afterTes3 > 0 then VersionError(MultipleVersions)
      else
        var afterTes4 := if tes4 then LIBBSA_VERSION_TES4 else afterTes3;
        if tes5 && afterTes4 > 0 then VersionError(MultipleVersions)
        else Version(if tes5 then LIBBSA_VERSION_TES5 else afterTes4)
  }

  /** The version checks applied to a flag word. */
  function CheckFlagVersions(flags: bv32): (r: VersionCheck)
  {
    CheckVersions(flags & LIBBSA_VERSION_TES3 != 0, flags & LIBBSA_COMPRESS_LEVEL_0 != 0,
                  flags & LIBBSA_VERSION_TES4 != 0, flags & LIBBSA_VERSION_TES5 != 0)
  }

  /** The last check of `bsa_save` as written, on `compression`, the flag
      word with the version bit cleared: it passes only when at least two
      bits are set, and otherwise reports the bad-compression error. */
  function CheckCompression(version: bv32, compression: bv32): (r: FlagCheck)
    ensures r.Accepted? <==> compression != 0 && compression !in ONE_BIT_WORDS
    ensures r.Accepted? ==> r == Accepted(version, compression)
    ensures r.Rejected? ==> r.error == BadCompression
  {
    SingleBitIsOneOfThe32(compression);
    if AtMostOneBit(compression) then Rejected(BadCompression)
    else Accepted(version, compression)
  }

  /** The flag checks of `bsa_save` as written: the version checks, then
      `compression := flags ^ version` and the test
      `!(compression & (compression - 1))`, which REJECTS a compression part
      with zero or one bit set. */
  function CheckSaveFlags(flags: bv32): (r: FlagCheck)
  {
    match CheckFlagVersions(flags)
    case VersionError(error) => Rejected(error)
    case Version(version) => CheckCompression(version, flags ^ version)
  }

  /** The version checks pass: TES3 only together with COMPRESS_LEVEL_0, and
      at most one of the three version bits. */
  predicate VersionsPass(flags: bv32)
  {
    var versions := flags & VERSION_MASK;
    && (flags & LIBBSA_VERSION_TES3 != 0 ==> flags & LIBBSA_COMPRESS_LEVEL_0 != 0)
    && versions in {0, LIBBSA_VERSION_TES3, LIBBSA_VERSION_TES4, LIBBSA_VERSION_TES5}
  }

  /** Every check of `bsa_save` as written passes: the version checks, and at
      least two bits in the rest of the word. */
  predicate SaveFlagsPass(flags: bv32)
  {
    var rest := flags & !VERSION_MASK;
    VersionsPass(flags) && rest != 0 && rest !in ONE_BIT_WORDS
  }

  /** The three version bits of a flag word are the bits of its masked part,
      and "none or exactly one of them" means the masked part is 0, TES3,
      TES4 or TES5. */
  lemma VersionBits(flags: bv32)
    ensures var versions := flags & VERSION_MASK;
      && (flags & LIBBSA_VERSION_TES3 != 0 <==> versions & LIBBSA_VERSION_TES3 != 0)
      && (flags & LIBBSA_VERSION_TES4 != 0 <==> versions & LIBBSA_VERSION_TES4 != 0)
      && (flags & LIBBSA_VERSION_TES5 != 0 <==> versions & LIBBSA_VERSION_TES5 != 0)
      && ((versions == 0 || SingleBit(versions)) <==>
          versions in {0, LIBBSA_VERSION_TES3, LIBBSA_VERSION_TES4, LIBBSA_VERSION_TES5})
  {
  }

  /** The version checks pass exactly when `VersionsPass` holds, and then
      `version` is the one version bit that is set, or 0 when none is. */
  lemma CheckFlagVersionsSpec(flags: bv32)
    ensures CheckFlagVersions(flags).Version? <==> VersionsPass(flags)
    ensures CheckFlagVersions(flags).Version? ==> CheckFlagVersions(flags).bit == flags & VERSION_MASK
  {
    VersionBits(flags);
  }

  /** With at most one version bit set, `flags ^ version` clears exactly the
      version bits. */
  lemma ClearVersion(flags: bv32)
    requires flags & VERSION_MASK in {0, LIBBSA_VERSION_TES3, LIBBSA_VERSION_TES4, LIBBSA_VERSION_TES5}
    ensures flags ^ (flags & VERSION_MASK) == flags & !VERSION_MASK
  {
  }

  /** What `bsa_save` hands to the engine when its checks pass: the single
      version bit (or 0) and the flag word with that bit cleared; and the
      checks pass exactly when `SaveFlagsPass` holds. */
  lemma CheckSaveFlagsAccepts(flags: bv32)
    ensures CheckSaveFlags(flags).Accepted? <==> SaveFlagsPass(flags)
    ensures CheckSaveFlags(flags).Accepted? ==>
      CheckSaveFlags(flags) == Accepted(flags & VERSION_MASK, flags & !VERSION_MASK)
  {
    if CheckSaveFlags(flags).Accepted? {
      AcceptedFlagsPass(flags);
    }
    if SaveFlagsPass(flags) {
      PassingFlagsAccepted(flags);
    }
  }

  lemma AcceptedFlagsPass(flags: bv32)
    requires CheckSaveFlags(flags).Accepted?
    ensures SaveFlagsPass(flags)
  {
    CheckFlagVersionsSpec(flags);
    RestStage(flags);
    CompressionAccepts(flags & VERSION_MASK, flags & !VERSION_MASK);
  }

  lemma PassingFlagsAccepted(flags: bv32)
    requires SaveFlagsPass(flags)
    ensures CheckSaveFlags(flags) == Accepted(flags & VERSION_MASK, flags & !VERSION_MASK)
  {
    RestStage(flags);
    CompressionAccepts(flags & VERSION_MASK, flags & !VERSION_MASK);
  }

  /** Past the version checks, the outcome is the compression test on the
      non-version part of the word. */
  lemma RestStage(flags: bv32)
    requires VersionsPass(flags)
    ensures CheckSaveFlags(flags) == CheckCompression(flags & VERSION_MASK, flags & !VERSION_MASK)
  {
    PassingVersions(flags);
    CompressionStage(flags, flags & VERSION_MASK);
  }

  lemma IntendedRestStage(flags: bv32)
    requires VersionsPass(flags)
    ensures CheckSaveFlagsIntended(flags) == CheckCompressionIntended(flags & VERSION_MASK, flags & !VERSION_MASK)
  {
    PassingVersions(flags);
    IntendedCompressionStage(flags, flags & VERSION_MASK);
  }

  /** The compression test as written, on its own inputs. */
  lemma CompressionAccepts(version: bv32, rest: bv32)
    ensures CheckCompression(version, rest).Accepted? <==> rest != 0 && rest !in ONE_BIT_WORDS
    ensures CheckCompression(version, rest).Accepted? ==> CheckCompression(version, rest) == Accepted(version, rest)
  {
  }

  /** Past the version checks, `version` is the masked version part and
      `flags ^ version` is the rest of the word. */
  lemma PassingVersions(flags: bv32)
    requires VersionsPass(flags)
    ensures CheckFlagVersions(flags) == Version(flags & VERSION_MASK)
    ensures flags ^ (flags & VERSION_MASK) == flags & !VERSION_MASK
  {
    CheckFlagVersionsSpec(flags);
    VersionBits(flags);
    ClearVersion(flags);
  }

  /** Once the version checks settle on `version`, the outcome is the
      compression test on `flags ^ version`. */
  lemma CompressionStage(flags: bv32, version: bv32)
    requires CheckFlagVersions(flags) == Version(version)
    ensures CheckSaveFlags(flags) == CheckCompression(version, flags ^ version)
  {
  }

  /** The TES3 check comes first: TES3 without COMPRESS_LEVEL_0 reports that
      Morrowind archives cannot be compressed, whatever other version bits
      are set. */
  lemma Tes3CheckFirst(flags: bv32)
    requires flags & LIBBSA_VERSION_TES3 != 0 && flags & LIBBSA_COMPRESS_LEVEL_0 == 0
    ensures CheckSaveFlags(flags) == Rejected(Tes3Compressed)
  {
  }

  /** Past the TES3 check, two or more version bits report the
      multiple-versions error. */
  lemma MultipleVersionsRejected(flags: bv32)
    requires flags & LIBBSA_VERSION_TES3 != 0 ==> flags & LIBBSA_COMPRESS_LEVEL_0 != 0
    requires flags & VERSION_MASK !in {0, LIBBSA_VERSION_TES3, LIBBSA_VERSION_TES4, LIBBSA_VERSION_TES5}
    ensures CheckSaveFlags(flags) == Rejected(MultipleVersions)
  {
    VersionBits(flags);
  }

  /** As written, a flag word whose non-version part is a single bit (one
      compression level, as the header's documentation asks for) is refused
      with the bad-compression error; so is one with no compression bit. */
  lemma SingleCompressionLevelRejected(flags: bv32)
    requires VersionsPass(flags)
    requires flags & !VERSION_MASK == 0 || flags & !VERSION_MASK in ONE_BIT_WORDS
    ensures CheckSaveFlags(flags) == Rejected(BadCompression)
  {
    CheckSaveFlagsAccepts(flags);
    CheckFlagVersionsSpec(flags);
  }

  /** Two concrete words the documentation describes as valid: an Oblivion
      archive at compression level 5, and an uncompressed Morrowind archive.
      The code as written refuses both. */
  lemma DocumentedFlagsRejected()
    ensures CheckSaveFlags(LIBBSA_VERSION_TES4 | LIBBSA_COMPRESS_LEVEL_5) == Rejected(BadCompression)
    ensures CheckSaveFlags(LIBBSA_VERSION_TES3 | LIBBSA_COMPRESS_LEVEL_0) == Rejected(BadCompression)
  {
    SingleCompressionLevelRejected(LIBBSA_VERSION_TES4 | LIBBSA_COMPRESS_LEVEL_5);
    SingleCompressionLevelRejected(LIBBSA_VERSION_TES3 | LIBBSA_COMPRESS_LEVEL_0);
  }

  /** The last check as the documentation describes it: exactly one bit in
      the compression part, and otherwise the bad-compression error. */
  function CheckCompressionIntended(version: bv32, compression: bv32): (r: FlagCheck)
    ensures r.Accepted? <==> compression in ONE_BIT_WORDS
    ensures r.Accepted? ==> r == Accepted(version, compression)
    ensures r.Rejected? ==> r.error == BadCompression
  {
    SingleBitIsOneOfThe32(compression);
    if !SingleBit(compression) then Rejected(BadCompression)
    else Accepted(version, compression)
  }

  /** The flag checks as the documentation describes them: the same version
      checks, then exactly one bit in the compression part. */
  function CheckSaveFlagsIntended(flags: bv32): (r: FlagCheck)
  {
    match CheckFlagVersions(flags)
    case VersionError(error) => Rejected(error)
    case Version(version) => CheckCompressionIntended(version, flags ^ version)
  }

  lemma IntendedCompressionStage(flags: bv32, version: bv32)
    requires CheckFlagVersions(flags) == Version(version)
    ensures CheckSaveFlagsIntended(flags) == CheckCompressionIntended(version, flags ^ version)
  {
  }

  /** The intended checks accept exactly the words with passing version bits
      and a single compression bit, and hand on the same two parts. */
  lemma CheckSaveFlagsIntendedAccepts(flags: bv32)
    ensures CheckSaveFlagsIntended(flags).Accepted? <==>
      VersionsPass(flags) && flags & !VERSION_MASK in ONE_BIT_WORDS
    ensures CheckSaveFlagsIntended(flags).Accepted? ==>
      CheckSaveFlagsIntended(flags) == Accepted(flags & VERSION_MASK, flags & !VERSION_MASK)
  {
    if CheckSaveFlagsIntended(flags).Accepted? {
      IntendedAcceptedFlagsPass(flags);
    }
    if VersionsPass(flags) && flags & !VERSION_MASK in ONE_BIT_WORDS {
      IntendedPassingFlagsAccepted(flags);
    }
  }

  lemma IntendedAcceptedFlagsPass(flags: bv32)
    requires CheckSaveFlagsIntended(flags).Accepted?
    ensures VersionsPass(flags) && flags & !VERSION_MASK in ONE_BIT_WORDS
  {
    CheckFlagVersionsSpec(flags);
    IntendedRestStage(flags);
    IntendedCompressionAccepts(flags & VERSION_MASK, flags & !VERSION_MASK);
  }

  lemma IntendedPassingFlagsAccepted(flags: bv32)
    requires VersionsPass(flags) && flags & !VERSION_MASK in ONE_BIT_WORDS
    ensures CheckSaveFlagsIntended(flags) == Accepted(flags & VERSION_MASK, flags & !VERSION_MASK)
  {
    IntendedRestStage(flags);
    IntendedCompressionAccepts(flags & VERSION_MASK, flags & !VERSION_MASK);
  }

  /** The corrected compression test, on its own inputs. */
  lemma IntendedCompressionAccepts(version: bv32, rest: bv32)
    ensures CheckCompressionIntended(version, rest).Accepted? <==> rest in ONE_BIT_WORDS
    ensures CheckCompressionIntended(version, rest).Accepted? ==>
      CheckCompressionIntended(version, rest) == Accepted(version, rest)
  {
  }

  /** Each compression level, and NOCHANGE, is a single bit outside the
      version bits. */
  lemma LevelIsSingleBit(level: nat)
    requires level <= 10
    ensures LIBBSA_COMPRESS_LEVEL_0 << level in ONE_BIT_WORDS
    ensures (LIBBSA_COMPRESS_LEVEL_0 << level) & VERSION_MASK == 0
  {
  }

  /** The intended checks accept every single compression level with every
      single version other than TES3, and TES3 with COMPRESS_LEVEL_0. */
  lemma IntendedAcceptsDocumentedFlags(version: bv32, level: nat)
    requires version in {0, LIBBSA_VERSION_TES4, LIBBSA_VERSION_TES5}
    requires level <= 10
    ensures CheckSaveFlagsIntended(version | (LIBBSA_COMPRESS_LEVEL_0 << level)) ==
      Accepted(version, LIBBSA_COMPRESS_LEVEL_0 << level)
    ensures CheckSaveFlagsIntended(LIBBSA_VERSION_TES3 | LIBBSA_COMPRESS_LEVEL_0) ==
      Accepted(LIBBSA_VERSION_TES3, LIBBSA_COMPRESS_LEVEL_0)
  {
    LevelIsSingleBit(level);
    IntendedAcceptsLevel(version, LIBBSA_COMPRESS_LEVEL_0 << level);
    IntendedAcceptsTes3Level0();
  }

  lemma IntendedAcceptsLevel(version: bv32, bit: bv32)
    requires version in {0, LIBBSA_VERSION_TES4, LIBBSA_VERSION_TES5}
    requires bit in ONE_BIT_WORDS && bit & VERSION_MASK == 0
    ensures CheckSaveFlagsIntended(version | bit) == Accepted(version, bit)
  {
    VersionAndLevel(version, bit);
    IntendedPassingFlagsAccepted(version | bit);
  }

  lemma IntendedAcceptsTes3Level0()
    ensures CheckSaveFlagsIntended(LIBBSA_VERSION_TES3 | LIBBSA_COMPRESS_LEVEL_0) ==
      Accepted(LIBBSA_VERSION_TES3, LIBBSA_COMPRESS_LEVEL_0)
  {
    Tes3Level0Passes();
    IntendedPassingFlagsAccepted(LIBBSA_VERSION_TES3 | LIBBSA_COMPRESS_LEVEL_0);
  }

  /** A non-Morrowind version with a bit outside the version bits: the
      version checks pass and the word splits back into the two. */
  lemma VersionAndLevel(version: bv32, bit: bv32)
    requires version in {0, LIBBSA_VERSION_TES4, LIBBSA_VERSION_TES5}
    requires bit & VERSION_MASK == 0
    ensures VersionsPass(version | bit)
    ensures (version | bit) & VERSION_MASK == version && (version | bit) & !VERSION_MASK == bit
  {
  }

  lemma Tes3Level0Passes()
    ensures VersionsPass(LIBBSA_VERSION_TES3 | LIBBSA_COMPRESS_LEVEL_0)
    ensures (LIBBSA_VERSION_TES3 | LIBBSA_COMPRESS_LEVEL_0) & !VERSION_MASK in ONE_BIT_WORDS
    ensures (LIBBSA_VERSION_TES3 | LIBBSA_COMPRESS_LEVEL_0) & VERSION_MASK == LIBBSA_VERSION_TES3
    ensures (LIBBSA_VERSION_TES3 | LIBBSA_COMPRESS_LEVEL_0) & !VERSION_MASK == LIBBSA_COMPRESS_LEVEL_0
  {
  }

  // ---------------------------------------------------------------------
  // Engine calls and replies

  /** How a call into the archive engine ends: normally, by throwing a
      `libbsa::error` (its code and message), or by throwing an
      `ios_base::failure` (its message). */
  datatype EngineOutcome = Completed | LibbsaError(code: nat, what: string) | IoFailure(what: string)

  /** What an entry point reports: its return code, and the message it
      records as the last error (`None`: the last error is left as it
      was). */
  datatype Reply = Reply(code: nat, message: Option<string>)

  /** The two catch blocks around an engine call in `bsa_open` and
      `bsa_save`. */
  function EngineReply(outcome: EngineOutcome): (r: Reply)
    ensures outcome.Completed? ==> r == Reply(LIBBSA_OK, None)
    ensures r.message.None? <==> outcome.Completed?
    ensures outcome.LibbsaError? ==> r.code == outcome.code
    ensures !outcome.Completed? ==> r.message == Some(outcome.what)
    ensures outcome.IoFailure? ==> r.code == LIBBSA_ERROR_FILESYSTEM_ERROR
  {
    match outcome
    case Completed => Reply(LIBBSA_OK, None)
    case LibbsaError(code, what) => Reply(code, Some(what))
    case IoFailure(what) => Reply(LIBBSA_ERROR_FILESYSTEM_ERROR, Some(what))
  }

  /** `bsa_save` as a function of whether the handle and the path are
      given, the flag word, and the engine's `Save` (path, version,
      compression). */
  function SaveReply(handleOpen: bool, path: Option<string>, flags: bv32,
                     save: (string, bv32, bv32) -> EngineOutcome): (r: Reply)
  {
    if !handleOpen || path.None? then Reply(LIBBSA_ERROR_INVALID_ARGS, Some(NULL_ARGUMENT_MESSAGE))
    else
      match CheckSaveFlags(flags)
      case Rejected(error) => Reply(LIBBSA_ERROR_INVALID_ARGS, Some(FlagErrorMessage(error)))
      case Accepted(version, compression) => EngineReply(save(path.value, version, compression))
  }

  /** The engine's `Save` is reached only when the handle and path are
      given and every flag check passes; otherwise the reply is
      INVALID_ARGS and does not depend on the engine at all, and a missing
      handle or path is reported before any flag is looked at. */
  lemma SaveChecksBeforeEngine(handleOpen: bool, path: Option<string>, flags: bv32,
                               save: (string, bv32, bv32) -> EngineOutcome,
                               otherSave: (string, bv32, bv32) -> EngineOutcome)
    ensures !(handleOpen && path.Some? && SaveFlagsPass(flags)) ==>
      && SaveReply(handleOpen, path, flags, save) == SaveReply(handleOpen, path, flags, otherSave)
      && SaveReply(handleOpen, path, flags, save).code == LIBBSA_ERROR_INVALID_ARGS
    ensures !handleOpen || path.None? ==>
      SaveReply(handleOpen, path, flags, save) == Reply(LIBBSA_ERROR_INVALID_ARGS, Some(NULL_ARGUMENT_MESSAGE))
  {
    CheckSaveFlagsAccepts(flags);
  }

  /** With every check passed, the engine is called with the single version
      bit and the rest of the word, and its outcome decides the reply: OK
      with nothing recorded, a libbsa error's own code and message, or
      FILESYSTEM_ERROR with the I/O failure's message. */
  lemma SaveReportsEngine(path: string, flags: bv32, save: (string, bv32, bv32) -> EngineOutcome)
    requires SaveFlagsPass(flags)
    ensures var outcome := save(path, flags & VERSION_MASK, flags & !VERSION_MASK);
      && (outcome.Completed? ==> SaveReply(true, Some(path), flags, save) == Reply(LIBBSA_OK, None))
      && (outcome.LibbsaError? ==>
          SaveReply(true, Some(path), flags, save) == Reply(outcome.code, Some(outcome.what)))
      && (outcome.IoFailure? ==>
          SaveReply(true, Some(path), flags, save) == Reply(LIBBSA_ERROR_FILESYSTEM_ERROR, Some(outcome.what)))
  {
    CheckSaveFlagsAccepts(flags);
  }

  /** A save succeeds exactly when the handle and path are given, the flags
      pass, and the engine completes. */
  lemma SaveSucceeds(handleOpen: bool, path: Option<string>, flags: bv32,
                     save: (string, bv32, bv32) -> EngineOutcome)
    ensures SaveReply(handleOpen, path, flags, save).message.None? <==>
      && handleOpen && path.Some? && SaveFlagsPass(flags)
      && save(path.value, flags & VERSION_MASK, flags & !VERSION_MASK).Completed?
  {
    CheckSaveFlagsAccepts(flags);
  }

  /** The messages `bsa_save` records for the flag errors: TES3 without
      COMPRESS_LEVEL_0 is reported as such even with a second version bit;
      and the documented single-level words are refused as an invalid
      compression level. */
  lemma SaveFlagMessages(path: string, flags: bv32, save: (string, bv32, bv32) -> EngineOutcome)
    ensures flags & LIBBSA_VERSION_TES3 != 0 && flags & LIBBSA_COMPRESS_LEVEL_0 == 0 ==>
      SaveReply(true, Some(path), flags, save) ==
        Reply(LIBBSA_ERROR_INVALID_ARGS, Some(UNCOMPRESSIBLE_TES3_MESSAGE))
    ensures SaveReply(true, Some(path), LIBBSA_VERSION_TES4 | LIBBSA_COMPRESS_LEVEL_5, save) ==
      Reply(LIBBSA_ERROR_INVALID_ARGS, Some(BAD_COMPRESSION_MESSAGE))
  {
    if flags & LIBBSA_VERSION_TES3 != 0 && flags & LIBBSA_COMPRESS_LEVEL_0 == 0 {
      Tes3CheckFirst(flags);
    }
    DocumentedFlagsRejected();
  }

  // ---------------------------------------------------------------------
  // The handle's result buffer

  /** The regular-expression step of `bsa_get_assets` and
      `bsa_extract_assets`: the pattern does not compile (with the regex
      library's message), or the handle's assets that match it, in the
      engine's list order. */
  datatype RegexOutcome = BadPattern(what: string) | Matched(assets: seq<Asset>)

  /** `_bsa_handle_int`, reduced to the result buffer the wrapper manages:
      `extAssets` (null when no buffer is live) and its entry count. */
  class Handle {
    var extAssets: array?<string>
    var extAssetsNum: nat

    /** A live buffer holds exactly `extAssetsNum` entries. */
    ghost predicate Valid()
      reads this
    {
      extAssets != null ==> extAssets.Length == extAssetsNum
    }

    constructor ()
      ensures extAssets == null && extAssetsNum == 0
      ensures Valid()
    {
      extAssets := null;
      extAssetsNum := 0;
    }

    /** Releases the result buffer when one is live and resets its count;
        with no live buffer nothing changes, not even a count left over from
        a failed allocation. */
    method FreeExtAssets()
      modifies this
      ensures Valid()
      ensures extAssets == null
      ensures extAssetsNum == if old(extAssets) != null then 0 else old(extAssetsNum)
    {
      if extAssets != null {
        extAssets := null;
        extAssetsNum := 0;
      }
    }

    /** Stores the paths of `matches` in a new result buffer, which the
        caller has released beforehand. The count is set first; then either
        the pointer array cannot be allocated (`noMemory`), which leaves no
        buffer live, or a fresh buffer receives the paths of `matches`, entry
        i from match i. */
    method FillExtAssets(matches: seq<Asset>, noMemory: bool)
      requires extAssets == null
      modifies this
      ensures Valid()
      ensures extAssetsNum == |matches|
      ensures noMemory ==> extAssets == null
      ensures !noMemory ==> extAssets != null && fresh(extAssets) && extAssets[..] == Paths(matches)
    {
      extAssetsNum := |matches|;
      if noMemory {
        return;
      }
      var buffer := new string[|matches|];
      extAssets := buffer;
      var i := 0;
      while i < |matches|
        invariant 0 <= i <= |matches|
        invariant extAssets == buffer
        invariant extAssetsNum == |matches|
        invariant forall j :: 0 <= j < i ==> buffer[j] == matches[j].path
      {
        buffer[i] := matches[i].path;
        i := i + 1;
      }
      assert buffer[..] == Paths(matches);
    }
  }

  // ---------------------------------------------------------------------
  // The wrapper

  /** The source and destination paths of an asset to add (`bsa_asset`). */
  datatype AssetSpec = AssetSpec(sourcePath: string, destPath: string)

  /** How `bsa_extract_assets` ends: with a return code, or with an
      `ios_base::failure` from `Extract` that it does not catch. */
  datatype Exit = Returned(code: nat) | Escaped(what: string)

  /** `BSANET`: the managed wrapper around one handle. `lastError` stands for
      the process-wide `extErrorString`. The model does not force a single
      slot: giving every wrapper the same `LastError` is up to the caller. */
  class Wrapper {
    var bh: Handle?
    const lastError: LastError

    ghost predicate Valid()
      reads this, bh
    {
      bh != null ==> bh.Valid()
    }

    constructor (lastError: LastError)
      ensures bh == null && this.lastError == lastError
      ensures Valid()
    {
      bh := null;
      this.lastError := lastError;
    }

    /** `bsa_open`: a missing path is refused; otherwise the engine opens the
        archive (as Morrowind or as the later format, which the model does
        not distinguish) and a fresh handle replaces the old one, or the
        engine's error is reported and the old handle kept. */
    method Open(path: Option<string>, open: string -> EngineOutcome) returns (code: nat)
      requires Valid()
      modifies this, lastError
      ensures Valid()
      ensures path.None? ==>
        && code == LIBBSA_ERROR_INVALID_ARGS && lastError.message == Some(NULL_ARGUMENT_MESSAGE)
        && bh == old(bh)
      ensures path.Some? && open(path.value).Completed? ==>
        && code == LIBBSA_OK && lastError.message == old(lastError.message)
        && bh != null && fresh(bh) && bh.extAssets == null && bh.extAssetsNum == 0
      ensures path.Some? && !open(path.value).Completed? ==>
        && code == EngineReply(open(path.value)).code
        && lastError.message == EngineReply(open(path.value)).message
        && bh == old(bh)
    {
      if path.None? {
        code := CError(lastError, LIBBSA_ERROR_INVALID_ARGS, NULL_ARGUMENT_MESSAGE);
        return;
      }
      match open(path.value)
      case Completed =>
        bh := new Handle();
        code := LIBBSA_OK;
      case LibbsaError(errorCode, what) =>
        code := CError(lastError, errorCode, what);
      case IoFailure(what) =>
        code := CError(lastError, LIBBSA_ERROR_FILESYSTEM_ERROR, what);
    }

    /** `bsa_save`: the reply is `SaveReply`; the last error changes only
        when the reply carries a message. */
    method Save(path: Option<string>, flags: bv32, save: (string, bv32, bv32) -> EngineOutcome)
      returns (code: nat)
      modifies lastError
      ensures var reply := SaveReply(bh != null, path, flags, save);
        && code == reply.code
        && lastError.message == if reply.message.Some? then reply.message else old(lastError.message)
    {
      if bh == null || path.None? {
        code := CError(lastError, LIBBSA_ERROR_INVALID_ARGS, NULL_ARGUMENT_MESSAGE);
        return;
      }
      match CheckSaveFlags(flags)
      case Rejected(error) =>
        code := CError(lastError, LIBBSA_ERROR_INVALID_ARGS, FlagErrorMessage(error));
      case Accepted(version, compression) =>
        match save(path.value, version, compression)
        case Completed =>
          code := LIBBSA_OK;
        case LibbsaError(errorCode, what) =>
          code := CError(lastError, errorCode, what);
        case IoFailure(what) =>
          code := CError(lastError, LIBBSA_ERROR_FILESYSTEM_ERROR, what);
    }

    /** `bsa_get_assets`: after the null checks, the previous buffer is
        freed; then a pattern that does not compile is refused, no match
        returns OK with no buffer, and otherwise the buffer is refilled with
        the matches' paths in order (or, when the pointer array cannot be
        allocated, NO_MEM is returned with the count already set and no
        buffer). */
    method GetAssets(contentPath: Option<string>, assetPathsGiven: bool,
                     regex: string -> RegexOutcome, noMemory: Option<string>)
      returns (code: nat)
      requires Valid()
      modifies lastError, bh
      ensures Valid()
      ensures bh == null || contentPath.None? || !assetPathsGiven ==>
        && code == LIBBSA_ERROR_INVALID_ARGS && lastError.message == Some(NULL_ARGUMENT_MESSAGE)
        && (bh != null ==> unchanged(bh))
      ensures bh != null && contentPath.Some? && assetPathsGiven ==>
        var matched := regex(contentPath.value);
        var freedCount := if old(bh.extAssets) != null then 0 else old(bh.extAssetsNum);
        && (matched.BadPattern? ==>
            && code == LIBBSA_ERROR_INVALID_ARGS && lastError.message == Some(matched.what)
            && bh.extAssets == null && bh.extAssetsNum == freedCount)
        && (matched.Matched? && matched.assets == [] ==>
            && code == LIBBSA_OK && lastError.message == old(lastError.message)
            && bh.extAssets == null && bh.extAssetsNum == freedCount)
        && (matched.Matched? && matched.assets != [] && noMemory.Some? ==>
            && code == LIBBSA_ERROR_NO_MEM && lastError.message == noMemory
            && bh.extAssets == null && bh.extAssetsNum == |matched.assets|)
        && (matched.Matched? && matched.assets != [] && noMemory.None? ==>
            && code == LIBBSA_OK && lastError.message == old(lastError.message)
            && bh.extAssets != null && fresh(bh.extAssets)
            && bh.extAssets[..] == Paths(matched.assets) && bh.extAssetsNum == |matched.assets|)
    {
      if bh == null || contentPath.None? || !assetPathsGiven {
        code := CError(lastError, LIBBSA_ERROR_INVALID_ARGS, NULL_ARGUMENT_MESSAGE);
        return;
      }
      bh.FreeExtAssets();
      match regex(contentPath.value)
      case BadPattern(what) =>
        code := CError(lastError, LIBBSA_ERROR_INVALID_ARGS, what);
      case Matched(matches) =>
        if matches == [] {
          code := LIBBSA_OK;
          return;
        }
        bh.FillExtAssets(matches, noMemory.Some?);
        if noMemory.Some? {
          code := CError(lastError, LIBBSA_ERROR_NO_MEM, noMemory.value);
        } else {
          code := LIBBSA_OK;
        }
    }

    /** `bsa_extract_assets`: as `bsa_get_assets`, except that a non-empty
        match list is first handed to the engine's `Extract` with the
        destination and the overwrite switch. A libbsa error from it is
        reported before the buffer is refilled; an I/O failure from it is not
        caught and leaves the function. */
    method ExtractAssets(contentPath: Option<string>, destPath: Option<string>, assetPathsGiven: bool,
                         overwrite: bool, regex: string -> RegexOutcome,
                         extract: (seq<Asset>, string, bool) -> EngineOutcome, noMemory: Option<string>)
      returns (exit: Exit)
      requires Valid()
      modifies lastError, bh
      ensures Valid()
      ensures bh == null || contentPath.None? || destPath.None? || !assetPathsGiven ==>
        && exit == Returned(LIBBSA_ERROR_INVALID_ARGS) && lastError.message == Some(NULL_ARGUMENT_MESSAGE)
        && (bh != null ==> unchanged(bh))
      ensures bh != null && contentPath.Some? && destPath.Some? && assetPathsGiven ==>
        var matched := regex(contentPath.value);
        var freedCount := if old(bh.extAssets) != null then 0 else old(bh.extAssetsNum);
        && (matched.BadPattern? ==>
            && exit == Returned(LIBBSA_ERROR_INVALID_ARGS) && lastError.message == Some(matched.what)
            && bh.extAssets == null && bh.extAssetsNum == freedCount)
        && (matched.Matched? && matched.assets == [] ==>
            && exit == Returned(LIBBSA_OK) && lastError.message == old(lastError.message)
            && bh.extAssets == null && bh.extAssetsNum == freedCount)
        && (matched.Matched? && matched.assets != [] ==>
            var extracted := extract(matched.assets, destPath.value, overwrite);
            && (extracted.LibbsaError? ==>
                && exit == Returned(extracted.code) && lastError.message == Some(extracted.what)
                && bh.extAssets == null && bh.extAssetsNum == freedCount)
            && (extracted.IoFailure? ==>
                && exit == Escaped(extracted.what) && lastError.message == old(lastError.message)
                && bh.extAssets == null && bh.extAssetsNum == freedCount)
            && (extracted.Completed? && noMemory.Some? ==>
                && exit == Returned(LIBBSA_ERROR_NO_MEM) && lastError.message == noMemory
                && bh.extAssets == null && bh.extAssetsNum == |matched.assets|)
            && (extracted.Completed? && noMemory.None? ==>
                && exit == Returned(LIBBSA_OK) && lastError.message == old(lastError.message)
                && bh.extAssets != null && fresh(bh.extAssets)
                && bh.extAssets[..] == Paths(matched.assets) && bh.extAssetsNum == |matched.assets|))
    {
      var code: nat;
      if bh == null || contentPath.None? || destPath.None? || !assetPathsGiven {
        code := CError(lastError, LIBBSA_ERROR_INVALID_ARGS, NULL_ARGUMENT_MESSAGE);
        return Returned(code);
      }
      bh.FreeExtAssets();
      match regex(contentPath.value)
      case BadPattern(what) =>
        code := CError(lastError, LIBBSA_ERROR_INVALID_ARGS, what);
        exit := Returned(code);
      case Matched(matches) =>
        if matches == [] {
          return Returned(LIBBSA_OK);
        }
        match extract(matches, destPath.value, overwrite)
        case IoFailure(what) =>
          exit := Escaped(what);
        case LibbsaError(errorCode, what) =>
          code := CError(lastError, errorCode, what);
          exit := Returned(code);
        case Completed =>
          bh.FillExtAssets(matches, noMemory.Some?);
          if noMemory.Some? {
            code := CError(lastError, LIBBSA_ERROR_NO_MEM, noMemory.value);
          } else {
            code := LIBBSA_OK;
          }
          exit := Returned(code);
    }

    /** `bsa_set_assets`: only the null checks; the handle is left alone. */
    method SetAssets(assets: Option<seq<AssetSpec>>) returns (code: nat)
      modifies lastError
      ensures bh == null || assets.None? ==>
        code == LIBBSA_ERROR_INVALID_ARGS && lastError.message == Some(NULL_ARGUMENT_MESSAGE)
      ensures bh != null && assets.Some? ==>
        code == LIBBSA_OK && lastError.message == old(lastError.message)
    {
      if bh == null || assets.None? {
        code := CError(lastError, LIBBSA_ERROR_INVALID_ARGS, NULL_ARGUMENT_MESSAGE);
        return;
      }
      code := LIBBSA_OK;
    }

    /** `bsa_add_asset`: only the handle is checked, not the asset. */
    method AddAsset(asset: Option<AssetSpec>) returns (code: nat)
      modifies lastError
      ensures bh == null ==>
        code == LIBBSA_ERROR_INVALID_ARGS && lastError.message == Some(NULL_ARGUMENT_MESSAGE)
      ensures bh != null ==>
        code == LIBBSA_OK && lastError.message == old(lastError.message)
    {
      if bh == null {
        code := CError(lastError, LIBBSA_ERROR_INVALID_ARGS, NULL_ARGUMENT_MESSAGE);
        return;
      }
      code := LIBBSA_OK;
    }

    /** `bsa_remove_asset`: only the null checks; the handle is left alone. */
    method RemoveAsset(assetPath: Option<string>) returns (code: nat)
      modifies lastError
      ensures bh == null || assetPath.None? ==>
        code == LIBBSA_ERROR_INVALID_ARGS && lastError.message == Some(NULL_ARGUMENT_MESSAGE)
      ensures bh != null && assetPath.Some? ==>
        code == LIBBSA_OK && lastError.message == old(lastError.message)
    {
      if bh == null || assetPath.None? {
        code := CError(lastError, LIBBSA_ERROR_INVALID_ARGS, NULL_ARGUMENT_MESSAGE);
        return;
      }
      code := LIBBSA_OK;
    }

    /** `bsa_get_error_message`: only the null check. The message it copies
        is assigned to a by-value parameter and does not reach the caller,
        so what the caller sees is the return code alone. */
    method GetErrorMessage(detailsGiven: bool) returns (code: nat)
      modifies lastError
      ensures !detailsGiven ==>
        code == LIBBSA_ERROR_INVALID_ARGS && lastError.message == Some(NULL_ARGUMENT_MESSAGE)
      ensures detailsGiven ==> code == LIBBSA_OK && lastError.message == old(lastError.message)
    {
      if !detailsGiven {
        code := CError(lastError, LIBBSA_ERROR_INVALID_ARGS, NULL_ARGUMENT_MESSAGE);
        return;
      }
      code := LIBBSA_OK;
    }

    /** `bsa_contains_asset`: after the null checks the engine's `HasAsset`
        (on the normalised path) is asked; like the message above, its answer
        is assigned to a by-value parameter, so only the code is observable. */
    method ContainsAsset(assetPath: Option<string>, resultGiven: bool) returns (code: nat)
      modifies lastError
      ensures bh == null || assetPath.None? || !resultGiven ==>
        code == LIBBSA_ERROR_INVALID_ARGS && lastError.message == Some(NULL_ARGUMENT_MESSAGE)
      ensures bh != null && assetPath.Some? && resultGiven ==>
        code == LIBBSA_OK && lastError.message == old(lastError.message)
    {
      if bh == null || assetPath.None? || !resultGiven {
        code := CError(lastError, LIBBSA_ERROR_INVALID_ARGS, NULL_ARGUMENT_MESSAGE);
        return;
      }
      code := LIBBSA_OK;
    }

    /** `bsa_extract_asset`: after the null checks the engine extracts the one
        asset (`extract` stands for `FixPath` followed by `Extract`); a libbsa
        error is reported with its own code, an I/O failure
        is not caught, and the result buffer is not touched. */
    method ExtractAsset(assetPath: Option<string>, destPath: Option<string>, overwrite: bool,
                        extract: (string, string, bool) -> EngineOutcome)
      returns (exit: Exit)
      modifies lastError
      ensures bh == null || assetPath.None? || destPath.None? ==>
        exit == Returned(LIBBSA_ERROR_INVALID_ARGS) && lastError.message == Some(NULL_ARGUMENT_MESSAGE)
      ensures bh != null && assetPath.Some? && destPath.Some? ==>
        var extracted := extract(assetPath.value, destPath.value, overwrite);
        && (extracted.Completed? ==> exit == Returned(LIBBSA_OK) && lastError.message == old(lastError.message))
        && (extracted.LibbsaError? ==>
            exit == Returned(extracted.code) && lastError.message == Some(extracted.what))
        && (extracted.IoFailure? ==>
            exit == Escaped(extracted.what) && lastError.message == old(lastError.message))
    {
      var code: nat;
      if bh == null || assetPath.None? || destPath.None? {
        code := CError(lastError, LIBBSA_ERROR_INVALID_ARGS, NULL_ARGUMENT_MESSAGE);
        return Returned(code);
      }
      match extract(assetPath.value, destPath.value, overwrite)
      case Completed =>
        exit := Returned(LIBBSA_OK);
      case LibbsaError(errorCode, what) =>
        code := CError(lastError, errorCode, what);
        exit := Returned(code);
      case IoFailure(what) =>
        exit := Escaped(what);
    }
  }
}

/** GzipEntry (dk.netarkivet.gzip): one member of a GZip file, the values
    read from its header and trailer, and a bit-set of the checks that
    failed on them. */
module GzipEntries {
  import opened Common

  /*
   * Error flags: one bit per check.
   */

  const INVALID_EXTRA_FLAGS: bv32 := 1
  const INVALID_OPERATING_SYSTEM: bv32 := 2
  const INVALID_RESERVED_FLAGS: bv32 := 4
  const INVALID_ISIZE: bv32 := 8
  const INVALID_CRC16: bv32 := 16
  const INVALID_CRC32: bv32 := 32

  /** Every error flag. */
  const ERROR_FLAGS: set<bv32> :=
    {INVALID_EXTRA_FLAGS, INVALID_OPERATING_SYSTEM, INVALID_RESERVED_FLAGS,
     INVALID_ISIZE, INVALID_CRC16, INVALID_CRC32}

  /** The union of the error flags. */
  const ALL_ERRORS: bv32 := 63

  /** isErrorSet: whether any bit of the mask is set. */
  predicate IsErrorSet(errors: bv32, errorMask: bv32)
    ensures IsErrorSet(errors, errorMask) ==> errors != 0 && errorMask != 0
  {
    errors & errorMask != 0
  }

  /** A bit-set that holds nothing but error flags. */
  predicate OnlyErrorFlags(errors: bv32)
  {
    errors & !ALL_ERRORS == 0
  }

  /** The flag that one check contributes: its bit when it failed. */
  function FlagIf(failed: bool, flag: bv32): bv32
  {
    if failed then flag else 0
  }

  /** The header CRC16 is checked only when one was read: a read value of 0
      (or a negative one) counts as absent. */
  predicate HeaderCrcFailed(readCrc16: int, computedCrc16: int)
  {
    readCrc16 > 0 && readCrc16 != computedCrc16
  }

  /** The errors that the constructor finds in the member header. */
  function HeaderErrors(reservedFlags: int, readCrc16: int, computedCrc16: int): (r: bv32)
    ensures IsErrorSet(r, INVALID_RESERVED_FLAGS) <==> reservedFlags != 0
    ensures IsErrorSet(r, INVALID_CRC16) <==> HeaderCrcFailed(readCrc16, computedCrc16)
    ensures !IsErrorSet(r, INVALID_EXTRA_FLAGS) && !IsErrorSet(r, INVALID_OPERATING_SYSTEM)
    ensures !IsErrorSet(r, INVALID_ISIZE) && !IsErrorSet(r, INVALID_CRC32)
    ensures OnlyErrorFlags(r)
  {
    FlagIf(reservedFlags != 0, INVALID_RESERVED_FLAGS) |
    FlagIf(HeaderCrcFailed(readCrc16, computedCrc16), INVALID_CRC16)
  }

  /** The errors of a member whose header and trailer were both checked. */
  function MemberErrors(reservedFlags: int, readCrc16: int, computedCrc16: int,
                        readISize: int, computedISize: int,
                        readCrc32: int, computedCrc32: int): bv32
  {
    HeaderErrors(reservedFlags, readCrc16, computedCrc16) |
    FlagIf(readISize != computedISize, INVALID_ISIZE) |
    FlagIf(readCrc32 != computedCrc32, INVALID_CRC32)
  }

  /** The six flags are distinct single bits, so setting one of them never
      changes what another one reports. */
  lemma FlagsIndependent(errors: bv32, flag: bv32, other: bv32)
    requires flag in ERROR_FLAGS && other in ERROR_FLAGS && flag != other
    ensures IsErrorSet(errors | flag, flag)
    ensures IsErrorSet(errors | flag, other) <==> IsErrorSet(errors, other)
  {
  }

  /** Adding errors only sets bits: a failed check is never cleared by
      later ones. */
  lemma ErrorsMonotone(errors: bv32, added: bv32, mask: bv32)
    ensures IsErrorSet(errors, mask) ==> IsErrorSet(errors | added, mask)
    ensures OnlyErrorFlags(errors) && OnlyErrorFlags(added) ==> OnlyErrorFlags(errors | added)
  {
  }

  /** A member is valid exactly when each of its four checks passed. */
  lemma {:induction false} MemberValidIffChecksPass(reservedFlags: int, readCrc16: int, computedCrc16: int,
                                 readISize: int, computedISize: int,
                                 readCrc32: int, computedCrc32: int)
    ensures MemberErrors(reservedFlags, readCrc16, computedCrc16, readISize, computedISize,
                         readCrc32, computedCrc32) == 0
            <==>
            reservedFlags == 0 && !HeaderCrcFailed(readCrc16, computedCrc16) &&
            readISize == computedISize && readCrc32 == computedCrc32
  {
    var h := HeaderErrors(reservedFlags, readCrc16, computedCrc16);
    var i := FlagIf(readISize != computedISize, INVALID_ISIZE);
    var c := FlagIf(readCrc32 != computedCrc32, INVALID_CRC32);
    assert h & (INVALID_ISIZE | INVALID_CRC32) == 0;
    assert (h | i | c == 0) <==> (h == 0 && i == 0 && c == 0);
  }

  /** An error bit-set is empty exactly when no is*Valid test fails on it. */
  lemma NoErrorIffEveryTestPasses(errors: bv32)
    requires OnlyErrorFlags(errors)
    ensures errors == 0 <==>
              !IsErrorSet(errors, INVALID_EXTRA_FLAGS) && !IsErrorSet(errors, INVALID_OPERATING_SYSTEM) &&
              !IsErrorSet(errors, INVALID_RESERVED_FLAGS) && !IsErrorSet(errors, INVALID_ISIZE) &&
              !IsErrorSet(errors, INVALID_CRC16) && !IsErrorSet(errors, INVALID_CRC32)
  {
  }

  /*
   * addErrors as written: `errors |= errors` updates the parameter, which
   * shadows the field, so the field never changes.
   */

  /** The field after addErrors as written. */
  function AddErrorsAsWritten(fieldErrors: bv32, errors: bv32): bv32
  {
    var parameter := errors | errors;
    fieldErrors
  }

  /** The field after the constructor as written, starting from 0. */
  function HeaderErrorsAsWritten(reservedFlags: int, readCrc16: int, computedCrc16: int): bv32
  {
    var e := if reservedFlags != 0 then AddErrorsAsWritten(0, INVALID_RESERVED_FLAGS) else 0;
    if HeaderCrcFailed(readCrc16, computedCrc16) then AddErrorsAsWritten(e, INVALID_CRC16) else e
  }

  /** The field after the constructor, setISize and setDataCrc as written. */
  function MemberErrorsAsWritten(reservedFlags: int, readCrc16: int, computedCrc16: int,
                                 readISize: int, computedISize: int,
                                 readCrc32: int, computedCrc32: int): bv32
  {
    var e := HeaderErrorsAsWritten(reservedFlags, readCrc16, computedCrc16);
    var e' := if readISize != computedISize then AddErrorsAsWritten(e, INVALID_ISIZE) else e;
    if readCrc32 != computedCrc32 then AddErrorsAsWritten(e', INVALID_CRC32) else e'
  }

  /** As written, every member is reported valid whatever its checks found. */
  lemma MemberAlwaysValidAsWritten(reservedFlags: int, readCrc16: int, computedCrc16: int,
                                   readISize: int, computedISize: int,
                                   readCrc32: int, computedCrc32: int)
    ensures MemberErrorsAsWritten(reservedFlags, readCrc16, computedCrc16, readISize, computedISize,
                                  readCrc32, computedCrc32) == 0
  {
  }

  /** A member with reserved flag bits set (here 4) and a header CRC16 that
      does not match: the code as written reports it valid and compliant,
      while the documented behaviour flags both. */
  lemma ReservedFlagsLostAsWritten()
    ensures HeaderErrorsAsWritten(4, 0x1234, 0x4321) == 0
    ensures IsErrorSet(HeaderErrors(4, 0x1234, 0x4321), INVALID_RESERVED_FLAGS)
    ensures IsErrorSet(HeaderErrors(4, 0x1234, 0x4321), INVALID_CRC16)
  {
  }

  class GzipEntry {
    /** Values read from the member header; never changed afterwards. */
    const index: int
    const offset: int
    const compressionMethod: int
    const extraFlags: int
    /** Modification time in milliseconds, when the header gave one. */
    const date: Option<int>
    const fileName: Option<string>
    const os: int
    const comment: Option<string>
    const asciiFlag: bool
    const extraFields: Option<seq<byte>>
    const readCrc16: int
    const computedCrc16: int

    /** Checks that failed, one bit each. */
    var errors: bv32
    /** Values from the member trailer; -1 until it has been read. */
    var size: int
    var csize: int
    var readISize: int
    var computedISize: int
    var readCrc32: int
    var computedCrc32: int

    ghost predicate Valid()
      reads this`errors
    {
      OnlyErrorFlags(errors)
    }

    /** The trailer has not been processed yet. */
    ghost predicate TrailerPending()
      reads this`size, this`csize, this`readISize, this`computedISize, this`readCrc32, this`computedCrc32
    {
      size == -1 && csize == -1 && readISize == -1 && computedISize == -1 &&
      readCrc32 == -1 && computedCrc32 == -1
    }

    /** The zero argument constructor. */
    constructor Empty()
      ensures Valid() && TrailerPending() && errors == 0
      ensures date.None? && fileName.None? && comment.None? && extraFields.None?
    {
      index, offset, compressionMethod, extraFlags, os := 0, 0, 0, 0, 0;
      date, fileName, comment, extraFields := None, None, None, None;
      asciiFlag := false;
      readCrc16, computedCrc16 := 0, 0;
      errors := 0;
      size, csize, readISize, computedISize, readCrc32, computedCrc32 := -1, -1, -1, -1, -1, -1;
    }

    /** The package constructor: stores the header values and flags
        reserved flag bits and a mismatching header CRC16. */
    constructor (index: int, offset: int, cm: int, extraFlags: int, date: Option<int>,
                 fileName: Option<string>, os: int, comment: Option<string>, asciiFlag: bool,
                 extraFields: Option<seq<byte>>, reservedFlags: int, readCrc16: int, computedCrc16: int)
      ensures Valid() && TrailerPending()
      ensures errors == HeaderErrors(reservedFlags, readCrc16, computedCrc16)
      ensures this.index == index && this.offset == offset && this.compressionMethod == cm &&
              this.extraFlags == extraFlags && this.date == date && this.fileName == fileName &&
              this.os == os && this.comment == comment && this.asciiFlag == asciiFlag &&
              this.extraFields == extraFields && this.readCrc16 == readCrc16 &&
              this.computedCrc16 == computedCrc16
    {
      this.index, this.offset, this.compressionMethod, this.extraFlags := index, offset, cm, extraFlags;
      this.date, this.fileName, this.os, this.comment := date, fileName, os, comment;
      this.asciiFlag, this.extraFields := asciiFlag, extraFields;
      this.readCrc16, this.computedCrc16 := readCrc16, computedCrc16;
      size, csize, readISize, computedISize, readCrc32, computedCrc32 := -1, -1, -1, -1, -1, -1;
      errors := 0;
      new;
      if reservedFlags != 0 {
        AddErrors(INVALID_RESERVED_FLAGS);
      }
      if HeaderCrcFailed(readCrc16, computedCrc16) {
        AddErrors(INVALID_CRC16);
      }
    }

    /** addErrors as documented: sets the given bits in the field. */
    method AddErrors(errorBits: bv32)
      modifies this`errors
      ensures errors == old(errors) | errorBits
    {
      errors := errors | errorBits;
    }

    /** isValid: no check failed. */
    predicate IsValid()
      reads this`errors
      ensures IsValid() ==> IsCompliant()
    {
      errors == 0
    }

    /** isCompliant: section 2.3.1.2 of RFC 1952 leaves only the reserved
        flags to check, since magic number and method are checked on
        reading. */
    predicate IsCompliant()
      reads this`errors
      ensures errors == 0 ==> IsCompliant()
    {
      IsReservedFlagsValid()
    }

    /* The six tests, isExtraFlagsValid to isDataCrcValid: each passes
       unless its own error flag is set, so an entry without errors passes
       them all. */

    predicate IsExtraFlagsValid()
      reads this`errors
      ensures errors == 0 ==> IsExtraFlagsValid()
    {
      !IsErrorSet(errors, INVALID_EXTRA_FLAGS)
    }

    predicate IsOperatingSystemValid()
      reads this`errors
      ensures errors == 0 ==> IsOperatingSystemValid()
    {
      !IsErrorSet(errors, INVALID_OPERATING_SYSTEM)
    }

    predicate IsReservedFlagsValid()
      reads this`errors
      ensures errors == 0 ==> IsReservedFlagsValid()
    {
      !IsErrorSet(errors, INVALID_RESERVED_FLAGS)
    }

    predicate IsISizeValid()
      reads this`errors
      ensures errors == 0 ==> IsISizeValid()
    {
      !IsErrorSet(errors, INVALID_ISIZE)
    }

    predicate IsHeaderCrcValid()
      reads this`errors
      ensures errors == 0 ==> IsHeaderCrcValid()
    {
      !IsErrorSet(errors, INVALID_CRC16)
    }

    predicate IsDataCrcValid()
      reads this`errors
      ensures errors == 0 ==> IsDataCrcValid()
    {
      !IsErrorSet(errors, INVALID_CRC32)
    }

    /** A valid entry passes every is*Valid test and is compliant, and an
        entry that passes every test is valid. */
    lemma ValidIffEveryTestPasses()
      requires Valid()
      ensures IsValid() <==>
                IsExtraFlagsValid() && IsOperatingSystemValid() && IsReservedFlagsValid() &&
                IsISizeValid() && IsHeaderCrcValid() && IsDataCrcValid()
      ensures IsValid() ==> IsCompliant()
    {
      NoErrorIffEveryTestPasses(errors);
    }

    /** setSizes: stores the compressed and uncompressed sizes only. */
    method SetSizes(csize: int, size: int)
      modifies this`csize, this`size
      ensures this.csize == csize && this.size == size
    {
      this.csize := csize;
      this.size := size;
    }

    /** setISize: stores both values and flags a mismatch. */
    method SetISize(readISize: int, computedISize: int)
      requires Valid()
      modifies this`readISize, this`computedISize, this`errors
      ensures Valid()
      ensures this.readISize == readISize && this.computedISize == computedISize
      ensures errors == old(errors) | FlagIf(readISize != computedISize, INVALID_ISIZE)
    {
      this.readISize := readISize;
      this.computedISize := computedISize;
      if readISize != computedISize {
        AddErrors(INVALID_ISIZE);
      }
    }

    /** setDataCrc: stores both values and flags a mismatch. */
    method SetDataCrc(readCrc32: int, computedCrc32: int)
      requires Valid()
      modifies this`readCrc32, this`computedCrc32, this`errors
      ensures Valid()
      ensures this.readCrc32 == readCrc32 && this.computedCrc32 == computedCrc32
      ensures errors == old(errors) | FlagIf(readCrc32 != computedCrc32, INVALID_CRC32)
    {
      this.readCrc32 := readCrc32;
      this.computedCrc32 := computedCrc32;
      if readCrc32 != computedCrc32 {
        AddErrors(INVALID_CRC32);
      }
    }
  }

  /** The life of a member as the reader drives it: the header checks at
      construction, then the trailer checks. The entry ends up holding the
      member's errors, and is valid exactly when every check passed. */
  method CheckMember(reservedFlags: int, readCrc16: int, computedCrc16: int,
                     readISize: int, computedISize: int,
                     readCrc32: int, computedCrc32: int) returns (e: GzipEntry)
    ensures e.errors == MemberErrors(reservedFlags, readCrc16, computedCrc16, readISize, computedISize,
                                     readCrc32, computedCrc32)
    ensures e.IsValid() <==>
              reservedFlags == 0 && !HeaderCrcFailed(readCrc16, computedCrc16) &&
              readISize == computedISize && readCrc32 == computedCrc32
    ensures e.readISize == readISize && e.computedISize == computedISize
    ensures e.readCrc32 == readCrc32 && e.computedCrc32 == computedCrc32
  {
    e := new GzipEntry(0, 0, 8, 0, None, None, 255, None, false, None,
                       reservedFlags, readCrc16, computedCrc16);
    e.SetISize(readISize, computedISize);
    e.SetDataCrc(readCrc32, computedCrc32);
    MemberValidIffChecksPass(reservedFlags, readCrc16, computedCrc16, readISize, computedISize,
                             readCrc32, computedCrc32);
  }
}

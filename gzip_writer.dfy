/** The GZip member writer: it emits a member header, drives the deflater
    over an input stream while keeping the CRC-32 of the plaintext, and
    emits the trailer. */
module GzipWriting {
  import opened Common
  import opened GzipFormat

  /** The input buffer size of the one-argument constructor. */
  const DEFAULT_INPUT_BUFFER_SIZE: nat := 1024

  /** `f` with `flag` ORed in when `c` holds. */
  function WithFlag(f: bv8, c: bool, flag: bv8): bv8
  {
    if c then f | flag else f
  }

  /** An entry's FLG after the writer ORs in, one after the other, the
      flags for text, an extra field, a name, a comment and a header CRC. */
  function WriterFlags(f: bv8, text: bool, extra: bool, name: bool, comment: bool, hcrc: bool): bv8
  {
    var f1 := WithFlag(f, text, FLG_FTEXT);
    var f2 := WithFlag(f1, extra, FLG_FEXTRA);
    var f3 := WithFlag(f2, name, FLG_FNAME);
    var f4 := WithFlag(f3, comment, FLG_FCOMMENT);
    WithFlag(f4, hcrc, FLG_FHCRC)
  }

  /** Reading a stream chunk by chunk: the running CRC and the octets
      supplied cover the octets read so far. */
  lemma ChunksJoin(crc0: bv32, data: seq<byte>, i: nat, j: nat, k: nat)
    requires i <= j <= k <= |data|
    ensures UpdateCrc(UpdateCrc(crc0, data[i..j]), data[j..k]) == UpdateCrc(crc0, data[i..k])
    ensures data[i..j] + data[j..k] == data[i..k]
  {
    assert data[i..j] + data[j..k] == data[i..k];
    UpdateCrcAppend(crc0, data[i..j], data[j..k]);
  }

  /** Each section flag set in `flg` announces data the entry has. */
  predicate PresetAgree(flg: bv8, extra: bool, name: bool, comment: bool)
  {
    (HasFlag(flg, FLG_FEXTRA) ==> extra) && (HasFlag(flg, FLG_FNAME) ==> name) &&
    (HasFlag(flg, FLG_FCOMMENT) ==> comment)
  }

  /** The section flags of `flg` are set exactly for the data the entry has. */
  predicate SectionFlagsMatch(flg: bv8, extra: bool, name: bool, comment: bool)
  {
    (HasFlag(flg, FLG_FEXTRA) <==> extra) && (HasFlag(flg, FLG_FNAME) <==> name) &&
    (HasFlag(flg, FLG_FCOMMENT) <==> comment)
  }

  /** After the writer's ORs, with the preset flags agreeing with the
      entry, a section flag is set exactly when the entry has that section;
      FHCRC is set when it was preset or asked for. */
  lemma FlagsAnnounceSections(f0: bv8, text: bool, extra: bool, name: bool, comment: bool, hcrc: bool)
    ensures var f := WriterFlags(f0, text, extra, name, comment, hcrc);
            PresetAgree(f0, extra, name, comment) ==>
              SectionFlagsMatch(f, extra, name, comment) &&
              (HasFlag(f, FLG_FHCRC) <==> HasFlag(f0, FLG_FHCRC) || hcrc)
  {
    FlagsAfterOr(f0, text, extra, name, comment, hcrc);
  }

  /** Each header flag is set after the OR exactly when it was set before
      or the writer adds it. */
  lemma FlagsAfterOr(f: bv8, text: bool, extra: bool, name: bool, comment: bool, hcrc: bool)
    ensures var g := WriterFlags(f, text, extra, name, comment, hcrc);
            (HasFlag(g, FLG_FTEXT) <==> HasFlag(f, FLG_FTEXT) || text) &&
            (HasFlag(g, FLG_FEXTRA) <==> HasFlag(f, FLG_FEXTRA) || extra) &&
            (HasFlag(g, FLG_FNAME) <==> HasFlag(f, FLG_FNAME) || name) &&
            (HasFlag(g, FLG_FCOMMENT) <==> HasFlag(f, FLG_FCOMMENT) || comment) &&
            (HasFlag(g, FLG_FHCRC) <==> HasFlag(f, FLG_FHCRC) || hcrc)
  {
  }

  /** The running CRC over the pieces of a header is the CRC of the whole. */
  lemma CrcOverPieces(a: seq<byte>, b: seq<byte>, c: seq<byte>, d: seq<byte>)
    ensures UpdateCrc(UpdateCrc(UpdateCrc(UpdateCrc(0, a), b), c), d) == Crc32(a + b + c + d)
  {
    UpdateCrcAppend(0, a, b);
    UpdateCrcAppend(0, a + b, c);
    UpdateCrcAppend(0, a + b + c, d);
  }

  /** The header octets written piece by piece make up EncodeHeader. */
  lemma HeaderPiecesJoin(o: seq<byte>, h: HeaderFields)
    requires SectionsPresent(h)
    ensures o + FixedHeader(h) + ExtraSection(h) + NameSection(h) + CommentSection(h) +
            (if HasFlag(h.flg, FLG_FHCRC) then Le16(HeaderCrc16(h)) else [])
            == o + EncodeHeader(h)
  {
  }

  /*
   * The deflater.
   */

  /** A stand-in for java.util.zip.Deflater with its needsInput / finished /
      deflate / setInput / finish protocol. It passes its input through
      unchanged (a stored copy), which is all the writer relies on: deflate
      yields nothing only when it needs input or has finished. */
  class Deflater {
    /** Input given to setInput and not yet deflated. */
    var input: seq<byte>
    /** Whether finish() was called since the last reset. */
    var finishRequested: bool
    /** Everything given to setInput since the last reset. */
    ghost var supplied: seq<byte>

    constructor ()
      ensures input == [] && !finishRequested && supplied == []
    {
      input := [];
      finishRequested := false;
      supplied := [];
    }

    /** Deflater.reset(). */
    method Reset()
      modifies this
      ensures input == [] && !finishRequested && supplied == []
    {
      input := [];
      finishRequested := false;
      supplied := [];
    }

    /** Deflater.needsInput(): the input is used up. */
    predicate NeedsInput()
      reads this
    {
      input == []
    }

    /** Deflater.finished(): finish() was called and all input is out. */
    predicate Finished()
      reads this
    {
      finishRequested && input == []
    }

    /** Deflater.setInput(buf, off, len): replaces the input. */
    method SetInput(buf: array<byte>, off: nat, len: nat)
      requires off + len <= buf.Length
      modifies this`input, this`supplied
      ensures input == buf[off..off + len]
      ensures supplied == old(supplied) + buf[off..off + len]
    {
      input := buf[off..off + len];
      supplied := supplied + input;
    }

    /** Deflater.finish(). */
    method Finish()
      modifies this`finishRequested
      ensures finishRequested
    {
      finishRequested := true;
    }

    /** Deflater.deflate(b, off, len): as many pending octets as fit into
        b[off..off + len]; nothing when no input is pending or len is 0. */
    method Deflate(b: array<byte>, off: nat, len: nat) returns (n: nat)
      requires off + len <= b.Length
      modifies this`input, b
      ensures n == Min(len, |old(input)|)
      ensures b[off..off + n] == old(input)[..n]
      ensures forall i :: 0 <= i < b.Length && !(off <= i < off + n) ==> b[i] == old(b[i])
      ensures input == old(input)[n..]
    {
      n := Min(len, |input|);
      forall i | off <= i < off + n {
        b[i] := input[i - off];
      }
      input := input[n..];
    }
  }

  /*
   * The entry.
   */

  /** The member entry the writer fills in (GzipReaderEntry is not part of
      this model; its fields are those the writer reads and sets). Numbers
      are Java `int` or `long` values (`mtime` is a `long`: the writer
      assigns it a `long` quotient); `flg` is the low octet of the Java `int`
      flag word, the only part the writer sets or writes; `date` is
      milliseconds since the epoch. */
  class GzipReaderEntry {
    var magic: int
    var cm: int
    var flg: bv8
    var mtime: int
    var xfl: int
    var os: int
    var extraBytes: Option<seq<byte>>
    var xlen: int
    var fname: Option<string>
    var fcomment: Option<string>
    var bFText: bool
    var bFhCrc: bool
    var crc16: int
    var comp_crc16: int
    var crc32: int
    var isize: int
    var date: Option<int>
    var bEof: bool
    var writer: GzipWriter?

    /** A flag bit set in FLG before writing announces data the entry has:
        the writer tests FLG, not the data, when it emits the sections. */
    predicate PresetFlagsAgree()
      reads this`flg, this`extraBytes, this`fname, this`fcomment
    {
      PresetAgree(flg, extraBytes.Some?, fname.Some?, fcomment.Some?)
    }

    /** The header fields as they go on the wire: the name and the comment
        are ISO-8859-1 encoded. */
    function Header(): HeaderFields
      reads this`magic, this`cm, this`flg, this`mtime, this`xfl, this`os
      reads this`extraBytes, this`fname, this`fcomment
    {
      HeaderFields(magic, cm, flg, mtime, xfl, os, extraBytes,
                   if fname.Some? then Some(Latin1(fname.value)) else None,
                   if fcomment.Some? then Some(Latin1(fcomment.value)) else None)
    }
  }

  /*
   * The writer.
   */

  class GzipWriter {
    /** Everything written to the output stream. */
    var out: seq<byte>
    const def: Deflater
    /** The CRC32 accumulator's value. */
    var crc: bv32
    const inputBytes: array<byte>
    var gzipEntry: GzipReaderEntry?
    const headerBytes: array<byte>
    const xlenBytes: array<byte>
    var fnameBytes: Option<seq<byte>>
    var fcommentBytes: Option<seq<byte>>
    const crc16Bytes: array<byte>
    const trailerBytes: array<byte>

    /** The buffers have their sizes and are distinct. */
    ghost predicate Valid()
    {
      inputBytes.Length > 0 && headerBytes.Length == 10 && xlenBytes.Length == 2 &&
      crc16Bytes.Length == 2 && trailerBytes.Length == 8 &&
      inputBytes != headerBytes && inputBytes != xlenBytes && inputBytes != crc16Bytes &&
      inputBytes != trailerBytes && headerBytes != xlenBytes && headerBytes != crc16Bytes &&
      headerBytes != trailerBytes && xlenBytes != crc16Bytes && xlenBytes != trailerBytes &&
      crc16Bytes != trailerBytes
    }

    /** GzipWriter(out): an input buffer of DEFAULT_INPUT_BUFFER_SIZE. */
    constructor ()
      ensures Valid() && fresh(def) && fresh(inputBytes)
      ensures inputBytes.Length == DEFAULT_INPUT_BUFFER_SIZE
      ensures out == [] && crc == 0 && gzipEntry == null && fnameBytes == None && fcommentBytes == None
    {
      out := [];
      def := new Deflater();
      crc := 0;
      inputBytes := new byte[DEFAULT_INPUT_BUFFER_SIZE];
      gzipEntry := null;
      headerBytes := new byte[10];
      xlenBytes := new byte[2];
      fnameBytes, fcommentBytes := None, None;
      crc16Bytes := new byte[2];
      trailerBytes := new byte[8];
    }

    /** GzipWriter(out, buffer_size) for a positive size. */
    constructor WithBufferSize(bufferSize: nat)
      requires bufferSize > 0
      ensures Valid() && fresh(def) && fresh(inputBytes)
      ensures inputBytes.Length == bufferSize
      ensures out == [] && crc == 0 && gzipEntry == null && fnameBytes == None && fcommentBytes == None
    {
      out := [];
      def := new Deflater();
      crc := 0;
      inputBytes := new byte[bufferSize];
      gzipEntry := null;
      headerBytes := new byte[10];
      xlenBytes := new byte[2];
      fnameBytes, fcommentBytes := None, None;
      crc16Bytes := new byte[2];
      trailerBytes := new byte[8];
    }

    /** Writes a member header for `entry` and prepares for its data: the
        flags announce what the entry holds, MTIME and the date are brought
        in line, the header goes out with its CRC16 when FHCRC is set, and
        the CRC and ISIZE start again from zero. */
    method WriteEntryHeader(entry: GzipReaderEntry) returns (ghost h: HeaderFields)
      requires Valid() && entry.PresetFlagsAgree()
      modifies this`crc, this`gzipEntry, this`out, this`fnameBytes, this`fcommentBytes
      modifies entry`flg, entry`xlen, entry`mtime, entry`date, entry`crc16, entry`comp_crc16
      modifies entry`isize, entry`writer, entry`bEof, def, headerBytes, xlenBytes, crc16Bytes
      ensures Valid()
      ensures entry.flg == WriterFlags(old(entry.flg), entry.bFText, entry.extraBytes.Some?, entry.fname.Some?,
                                  entry.fcomment.Some?, entry.bFhCrc)
      ensures old(entry.date).Some? ==> entry.mtime == JavaDiv(old(entry.date).value, 1000) && entry.date == old(entry.date)
      ensures old(entry.date).None? && old(entry.mtime) != 0 ==>
                entry.mtime == old(entry.mtime) && entry.date == Some(ToInt64(old(entry.mtime) * 1000))
      ensures old(entry.date).None? && old(entry.mtime) == 0 ==> entry.mtime == 0 && entry.date == None
      ensures entry.xlen == if entry.extraBytes.Some? then |entry.extraBytes.value| else old(entry.xlen)
      ensures h == entry.Header() && SectionsPresent(h)
      ensures out == old(out) + EncodeHeader(h)
      ensures HasFlag(h.flg, FLG_FHCRC) ==>
                entry.crc16 == entry.comp_crc16 == HeaderCrc16(h)
      ensures !HasFlag(h.flg, FLG_FHCRC) ==>
                entry.crc16 == old(entry.crc16) && entry.comp_crc16 == old(entry.comp_crc16)
      ensures crc == 0 && entry.isize == 0 && entry.writer == this && !entry.bEof && gzipEntry == entry
      ensures def.input == [] && !def.finishRequested && def.supplied == []
    {
      StartEntry(entry);
      FillHeader(entry);
      h := FinishHeader(entry);
    }

    /** The start of writeEntryHeader: the CRC and the deflater are reset
        and the entry becomes the current one. */
    method StartEntry(entry: GzipReaderEntry)
      modifies this`crc, this`gzipEntry, def
      ensures crc == 0 && gzipEntry == entry
      ensures def.input == [] && !def.finishRequested && def.supplied == []
    {
      crc := 0;
      def.Reset();
      gzipEntry := entry;
    }

    /** The header fields are brought up to date: the flags, XLEN and the
        encoded name and comment, then MTIME and the date. */
    method FillHeader(entry: GzipReaderEntry)
      requires Valid() && entry.PresetFlagsAgree()
      modifies entry`flg, entry`xlen, this`fnameBytes, this`fcommentBytes, xlenBytes, entry`mtime, entry`date
      ensures entry.flg == WriterFlags(old(entry.flg), entry.bFText, entry.extraBytes.Some?, entry.fname.Some?,
                                  entry.fcomment.Some?, entry.bFhCrc)
      ensures SectionFlagsMatch(entry.flg, entry.extraBytes.Some?, entry.fname.Some?, entry.fcomment.Some?)
      ensures entry.extraBytes.Some? ==> entry.xlen == |entry.extraBytes.value| && xlenBytes[..] == Le16(entry.xlen)
      ensures entry.extraBytes.None? ==> entry.xlen == old(entry.xlen)
      ensures entry.fname.Some? ==> fnameBytes == Some(Latin1(entry.fname.value))
      ensures entry.fcomment.Some? ==> fcommentBytes == Some(Latin1(entry.fcomment.value))
      ensures old(entry.date).Some? ==> entry.mtime == JavaDiv(old(entry.date).value, 1000) && entry.date == old(entry.date)
      ensures old(entry.date).None? && old(entry.mtime) != 0 ==>
                entry.mtime == old(entry.mtime) && entry.date == Some(ToInt64(old(entry.mtime) * 1000))
      ensures old(entry.date).None? && old(entry.mtime) == 0 ==> entry.mtime == 0 && entry.date == None
    {
      SetFlags(entry);
      SetTime(entry);
    }

    /** The flag part of writeEntryHeader: ORs in the bits for what the
        entry holds, sets XLEN and encodes the name and the comment. With
        the preset flags agreeing with the entry, the section flags then
        match the entry's data. */
    method SetFlags(entry: GzipReaderEntry)
      requires Valid() && entry.PresetFlagsAgree()
      modifies entry`flg, entry`xlen, this`fnameBytes, this`fcommentBytes, xlenBytes
      ensures entry.flg == WriterFlags(old(entry.flg), entry.bFText, entry.extraBytes.Some?, entry.fname.Some?,
                                  entry.fcomment.Some?, entry.bFhCrc)
      ensures SectionFlagsMatch(entry.flg, entry.extraBytes.Some?, entry.fname.Some?, entry.fcomment.Some?)
      ensures HasFlag(entry.flg, FLG_FHCRC) <==> HasFlag(old(entry.flg), FLG_FHCRC) || entry.bFhCrc
      ensures entry.extraBytes.Some? ==> entry.xlen == |entry.extraBytes.value| && xlenBytes[..] == Le16(entry.xlen)
      ensures entry.extraBytes.None? ==> entry.xlen == old(entry.xlen)
      ensures fnameBytes == if entry.fname.Some? then Some(Latin1(entry.fname.value)) else old(fnameBytes)
      ensures fcommentBytes == if entry.fcomment.Some? then Some(Latin1(entry.fcomment.value)) else old(fcommentBytes)
    {
      OrFlags(entry);
      FlagsAnnounceSections(old(entry.flg), entry.bFText, entry.extraBytes.Some?, entry.fname.Some?,
                            entry.fcomment.Some?, entry.bFhCrc);
    }

    /** The five `if (...) flg |= ...` steps in order. */
    method OrFlags(entry: GzipReaderEntry)
      requires Valid()
      modifies entry`flg, entry`xlen, this`fnameBytes, this`fcommentBytes, xlenBytes
      ensures entry.flg == WriterFlags(old(entry.flg), entry.bFText, entry.extraBytes.Some?, entry.fname.Some?,
                                  entry.fcomment.Some?, entry.bFhCrc)
      ensures entry.extraBytes.Some? ==> entry.xlen == |entry.extraBytes.value| && xlenBytes[..] == Le16(entry.xlen)
      ensures entry.extraBytes.None? ==> entry.xlen == old(entry.xlen)
      ensures fnameBytes == if entry.fname.Some? then Some(Latin1(entry.fname.value)) else old(fnameBytes)
      ensures fcommentBytes == if entry.fcomment.Some? then Some(Latin1(entry.fcomment.value)) else old(fcommentBytes)
    {
      SetTextFlag(entry);
      SetExtraFlag(entry);
      SetNameFlag(entry);
      SetCommentFlag(entry);
      SetHeaderCrcFlag(entry);
    }

    /** FTEXT when the entry is marked as text. */
    method SetTextFlag(entry: GzipReaderEntry)
      modifies entry`flg
      ensures entry.flg == WithFlag(old(entry.flg), entry.bFText, FLG_FTEXT)
    {
      if entry.bFText {
        entry.flg := entry.flg | FLG_FTEXT;
      }
    }

    /** FEXTRA and XLEN when the entry has an extra field. */
    method SetExtraFlag(entry: GzipReaderEntry)
      requires Valid()
      modifies entry`flg, entry`xlen, xlenBytes
      ensures entry.flg == WithFlag(old(entry.flg), entry.extraBytes.Some?, FLG_FEXTRA)
      ensures entry.extraBytes.Some? ==> entry.xlen == |entry.extraBytes.value| && xlenBytes[..] == Le16(entry.xlen)
      ensures entry.extraBytes.None? ==> entry.xlen == old(entry.xlen)
    {
      if entry.extraBytes.Some? {
        entry.flg := entry.flg | FLG_FEXTRA;
        entry.xlen := |entry.extraBytes.value|;
        xlenBytes[0] := entry.xlen % 256;
        xlenBytes[1] := (entry.xlen / 256) % 256;
      }
    }

    /** FNAME and the encoded name when the entry has a name. */
    method SetNameFlag(entry: GzipReaderEntry)
      modifies entry`flg, this`fnameBytes
      ensures entry.flg == WithFlag(old(entry.flg), entry.fname.Some?, FLG_FNAME)
      ensures fnameBytes == if entry.fname.Some? then Some(Latin1(entry.fname.value)) else old(fnameBytes)
    {
      if entry.fname.Some? {
        entry.flg := entry.flg | FLG_FNAME;
        fnameBytes := Some(Latin1(entry.fname.value));
      }
    }

    /** FCOMMENT and the encoded comment when the entry has a comment. */
    method SetCommentFlag(entry: GzipReaderEntry)
      modifies entry`flg, this`fcommentBytes
      ensures entry.flg == WithFlag(old(entry.flg), entry.fcomment.Some?, FLG_FCOMMENT)
      ensures fcommentBytes == if entry.fcomment.Some? then Some(Latin1(entry.fcomment.value)) else old(fcommentBytes)
    {
      if entry.fcomment.Some? {
        entry.flg := entry.flg | FLG_FCOMMENT;
        fcommentBytes := Some(Latin1(entry.fcomment.value));
      }
    }

    /** FHCRC when the entry asks for a header CRC. */
    method SetHeaderCrcFlag(entry: GzipReaderEntry)
      modifies entry`flg
      ensures entry.flg == WithFlag(old(entry.flg), entry.bFhCrc, FLG_FHCRC)
    {
      if entry.bFhCrc {
        entry.flg := entry.flg | FLG_FHCRC;
      }
    }

    /** The time part of writeEntryHeader: MTIME in seconds from the date
        when there is one, otherwise the date from a non-zero MTIME. */
    method SetTime(entry: GzipReaderEntry)
      modifies entry`mtime, entry`date
      ensures old(entry.date).Some? ==> entry.mtime == JavaDiv(old(entry.date).value, 1000) && entry.date == old(entry.date)
      ensures old(entry.date).None? && old(entry.mtime) != 0 ==>
                entry.mtime == old(entry.mtime) && entry.date == Some(ToInt64(old(entry.mtime) * 1000))
      ensures old(entry.date).None? && old(entry.mtime) == 0 ==> entry.mtime == 0 && entry.date == None
    {
      if entry.date.Some? {
        entry.mtime := JavaDiv(entry.date.value, 1000);
      } else if entry.mtime != 0 {
        entry.date := Some(ToInt64(entry.mtime * 1000));
      }
    }

    /** The header octets go out, then the writer and the entry are
        prepared for the entry's data. */
    method FinishHeader(entry: GzipReaderEntry) returns (ghost h: HeaderFields)
      requires Valid() && crc == 0
      requires SectionFlagsMatch(entry.flg, entry.extraBytes.Some?, entry.fname.Some?, entry.fcomment.Some?)
      requires entry.extraBytes.Some? ==> xlenBytes[..] == Le16(|entry.extraBytes.value|)
      requires entry.fname.Some? ==> fnameBytes == Some(Latin1(entry.fname.value))
      requires entry.fcomment.Some? ==> fcommentBytes == Some(Latin1(entry.fcomment.value))
      modifies this`out, this`crc, headerBytes, entry`crc16, entry`comp_crc16, crc16Bytes
      modifies entry`isize, entry`writer, entry`bEof
      ensures h == entry.Header() && SectionsPresent(h)
      ensures out == old(out) + EncodeHeader(h)
      ensures HasFlag(h.flg, FLG_FHCRC) ==> entry.crc16 == entry.comp_crc16 == HeaderCrc16(h)
      ensures !HasFlag(h.flg, FLG_FHCRC) ==> entry.crc16 == old(entry.crc16) && entry.comp_crc16 == old(entry.comp_crc16)
      ensures crc == 0 && entry.isize == 0 && entry.writer == this && !entry.bEof
    {
      h := entry.Header();
      EmitHeader(entry, h);
      Prepare(entry);
    }

    /** The header octets in order, the running CRC over them and, when
        FHCRC is set, the CRC16 field. */
    method EmitHeader(entry: GzipReaderEntry, ghost h: HeaderFields)
      requires Valid() && h == entry.Header() && crc == 0
      requires SectionFlagsMatch(h.flg, entry.extraBytes.Some?, entry.fname.Some?, entry.fcomment.Some?)
      requires entry.extraBytes.Some? ==> xlenBytes[..] == Le16(|entry.extraBytes.value|)
      requires entry.fname.Some? ==> fnameBytes == Some(Latin1(entry.fname.value))
      requires entry.fcomment.Some? ==> fcommentBytes == Some(Latin1(entry.fcomment.value))
      modifies this`out, this`crc, headerBytes, entry`crc16, entry`comp_crc16, crc16Bytes
      ensures SectionsPresent(h)
      ensures out == old(out) + EncodeHeader(h)
      ensures HasFlag(h.flg, FLG_FHCRC) ==> entry.crc16 == entry.comp_crc16 == HeaderCrc16(h)
      ensures !HasFlag(h.flg, FLG_FHCRC) ==> entry.crc16 == old(entry.crc16) && entry.comp_crc16 == old(entry.comp_crc16)
    {
      EmitFixedHeader(entry, h);
      EmitSections(entry, h);
      CrcOverPieces(FixedHeader(h), ExtraSection(h), NameSection(h), CommentSection(h));
      assert crc == Crc32(HeaderPrefix(h));
      assert Low16(crc) == HeaderCrc16(h);
      EmitHeaderCrc(entry, HasFlag(h.flg, FLG_FHCRC), HeaderCrc16(h));
      HeaderPiecesJoin(old(out), h);
    }

    /** The ten fixed octets go out and into the CRC. */
    method EmitFixedHeader(entry: GzipReaderEntry, ghost h: HeaderFields)
      requires Valid() && h == entry.Header()
      modifies this`out, this`crc, headerBytes
      ensures out == old(out) + FixedHeader(h)
      ensures crc == UpdateCrc(old(crc), FixedHeader(h))
    {
      headerBytes[0] := entry.magic % 256;
      headerBytes[1] := (entry.magic / 256) % 256;
      headerBytes[2] := entry.cm % 256;
      headerBytes[3] := entry.flg as int;
      headerBytes[4] := entry.mtime % 256;
      headerBytes[5] := (entry.mtime / 0x100) % 256;
      headerBytes[6] := (entry.mtime / 0x1_0000) % 256;
      headerBytes[7] := (entry.mtime / 0x100_0000) % 256;
      headerBytes[8] := entry.xfl % 256;
      headerBytes[9] := entry.os % 256;
      assert headerBytes[..] == FixedHeader(h);
      out := out + headerBytes[..];
      crc := UpdateCrc(crc, headerBytes[..]);
    }

    /** The optional sections go out and into the CRC, each when its flag
        is set: XLEN and the extra field, the name, the comment. */
    method EmitSections(entry: GzipReaderEntry, ghost h: HeaderFields)
      requires Valid() && h == entry.Header() && SectionsPresent(h)
      requires HasFlag(h.flg, FLG_FEXTRA) ==> xlenBytes[..] == Le16(|h.extra.value|)
      requires HasFlag(h.flg, FLG_FNAME) ==> fnameBytes == h.name
      requires HasFlag(h.flg, FLG_FCOMMENT) ==> fcommentBytes == h.comment
      modifies this`out, this`crc
      ensures out == old(out) + ExtraSection(h) + NameSection(h) + CommentSection(h)
      ensures crc == UpdateCrc(UpdateCrc(UpdateCrc(old(crc), ExtraSection(h)), NameSection(h)), CommentSection(h))
    {
      EmitExtra(entry, h);
      EmitName(entry, h);
      EmitComment(entry, h);
    }

    /** XLEN and the extra field, when FEXTRA is set. */
    method EmitExtra(entry: GzipReaderEntry, ghost h: HeaderFields)
      requires Valid() && h == entry.Header() && SectionsPresent(h)
      requires HasFlag(h.flg, FLG_FEXTRA) ==> xlenBytes[..] == Le16(|h.extra.value|)
      modifies this`out, this`crc
      ensures out == old(out) + ExtraSection(h)
      ensures crc == UpdateCrc(old(crc), ExtraSection(h))
    {
      if HasFlag(entry.flg, FLG_FEXTRA) {
        out := out + xlenBytes[..];
        out := out + entry.extraBytes.value;
        crc := UpdateCrc(crc, xlenBytes[..]);
        crc := UpdateCrc(crc, entry.extraBytes.value);
        UpdateCrcAppend(old(crc), xlenBytes[..], entry.extraBytes.value);
      } else {
        UpdateCrcEmpty(crc);
      }
    }

    /** The zero-terminated name, when FNAME is set. */
    method EmitName(entry: GzipReaderEntry, ghost h: HeaderFields)
      requires Valid() && h == entry.Header() && SectionsPresent(h)
      requires HasFlag(h.flg, FLG_FNAME) ==> fnameBytes == h.name
      modifies this`out, this`crc
      ensures out == old(out) + NameSection(h)
      ensures crc == UpdateCrc(old(crc), NameSection(h))
    {
      if HasFlag(entry.flg, FLG_FNAME) {
        out := out + fnameBytes.value;
        out := out + [0];
        crc := UpdateCrc(crc, fnameBytes.value);
        crc := UpdateCrc(crc, [0]);
        UpdateCrcAppend(old(crc), fnameBytes.value, [0]);
      } else {
        UpdateCrcEmpty(crc);
      }
    }

    /** The zero-terminated comment, when FCOMMENT is set. */
    method EmitComment(entry: GzipReaderEntry, ghost h: HeaderFields)
      requires Valid() && h == entry.Header() && SectionsPresent(h)
      requires HasFlag(h.flg, FLG_FCOMMENT) ==> fcommentBytes == h.comment
      modifies this`out, this`crc
      ensures out == old(out) + CommentSection(h)
      ensures crc == UpdateCrc(old(crc), CommentSection(h))
    {
      if HasFlag(entry.flg, FLG_FCOMMENT) {
        out := out + fcommentBytes.value;
        out := out + [0];
        crc := UpdateCrc(crc, fcommentBytes.value);
        crc := UpdateCrc(crc, [0]);
        UpdateCrcAppend(old(crc), fcommentBytes.value, [0]);
      } else {
        UpdateCrcEmpty(crc);
      }
    }

    /** The CRC16 field, when FHCRC is set: the low half of the running
        CRC32, which covers every header octet written before it. */
    method EmitHeaderCrc(entry: GzipReaderEntry, ghost hcrc: bool, ghost crc16: int)
      requires Valid() && hcrc == HasFlag(entry.flg, FLG_FHCRC) && crc16 == Low16(crc)
      modifies entry`crc16, entry`comp_crc16, this`out, crc16Bytes
      ensures hcrc ==> entry.crc16 == entry.comp_crc16 == crc16 && out == old(out) + Le16(crc16)
      ensures !hcrc ==> entry.crc16 == old(entry.crc16) && entry.comp_crc16 == old(entry.comp_crc16) && out == old(out)
    {
      if HasFlag(entry.flg, FLG_FHCRC) {
        entry.comp_crc16 := Low16(crc);
        entry.crc16 := entry.comp_crc16;
        crc16Bytes[0] := entry.crc16 % 256;
        crc16Bytes[1] := (entry.crc16 / 256) % 256;
        out := out + crc16Bytes[..];
      }
    }

    /** The end of writeEntryHeader: the CRC and ISIZE start again from
        zero and the entry reads through this writer. */
    method Prepare(entry: GzipReaderEntry)
      modifies this`crc, entry`isize, entry`writer, entry`bEof
      ensures crc == 0 && entry.isize == 0 && entry.writer == this && !entry.bEof
    {
      crc := 0;
      entry.isize := 0;
      entry.writer := this;
      entry.bEof := false;
    }

    /** Writes the trailer: CRC32 and ISIZE, low 32 bits each, little-endian. */
    method WriteTrailer(entry: GzipReaderEntry)
      requires Valid()
      modifies this`out, trailerBytes
      ensures out == old(out) + EncodeTrailer(entry.crc32, entry.isize)
    {
      trailerBytes[0] := entry.crc32 % 256;
      trailerBytes[1] := (entry.crc32 / 0x100) % 256;
      trailerBytes[2] := (entry.crc32 / 0x1_0000) % 256;
      trailerBytes[3] := (entry.crc32 / 0x100_0000) % 256;
      trailerBytes[4] := entry.isize % 256;
      trailerBytes[5] := (entry.isize / 0x100) % 256;
      trailerBytes[6] := (entry.isize / 0x1_0000) % 256;
      trailerBytes[7] := (entry.isize / 0x100_0000) % 256;
      out := out + trailerBytes[..];
    }

    /** The deflater's request for input: the next chunk of `source`, given
        to the deflater and to the CRC, or finish() at the end of it. */
    method Refill(source: ByteSource)
      requires Valid() && source.Valid()
      requires def.NeedsInput() && !def.Finished()
      modifies this`crc, def, source`pos, inputBytes
      ensures source.Valid()
      ensures (old(source.pos) < source.pos && !def.finishRequested) ||
              (old(source.pos) == source.pos == |source.data| && def.finishRequested)
      ensures crc == UpdateCrc(old(crc), source.data[old(source.pos)..source.pos])
      ensures def.supplied == old(def.supplied) + source.data[old(source.pos)..source.pos]
    {
      var read := source.Read(inputBytes, 0, inputBytes.Length);
      if read != -1 {
        def.SetInput(inputBytes, 0, read);
        crc := UpdateCrc(crc, inputBytes[0..read]);
      } else {
        def.Finish();
      }
    }

    /** Fills `b[off..off + len]` with compressed data, feeding the deflater
        from `source` as it asks for input and keeping the CRC-32 of everything
        read. Returns the count delivered, -1 once the deflater has
        finished, and fails when the deflater neither delivers, nor needs
        input, nor has finished. */
    method ReadCompressed(source: ByteSource, b: array<byte>, off: nat, len: nat) returns (r: Result<int>)
      requires Valid() && source.Valid()
      requires off + len <= b.Length && b != inputBytes
      modifies this`crc, def, b, source`pos, inputBytes
      ensures source.Valid() && old(source.pos) <= source.pos
      ensures r.Ok? ==> r.value == -1 || 0 < r.value <= len
      ensures r.Ok? && r.value == -1 ==> def.Finished()
      ensures r.Err? ==> r.failure == DataFormat && !def.Finished() && !def.NeedsInput()
      ensures crc == UpdateCrc(old(crc), source.data[old(source.pos)..source.pos])
      ensures def.supplied == old(def.supplied) + source.data[old(source.pos)..source.pos]
      ensures def.finishRequested && !old(def.finishRequested) ==> source.pos == |source.data|
    {
      ghost var pos0, crc0, supplied0, finish0 := source.pos, crc, def.supplied, def.finishRequested;
      var deflated: nat := def.Deflate(b, off, len);
      while deflated == 0
        invariant source.Valid() && pos0 <= source.pos
        invariant crc == UpdateCrc(crc0, source.data[pos0..source.pos])
        invariant def.supplied == supplied0 + source.data[pos0..source.pos]
        invariant def.finishRequested && !finish0 ==> source.pos == |source.data|
        invariant deflated <= len
        decreases |source.data| - source.pos, if def.finishRequested then 0 else 1
      {
        if def.Finished() {
          return Ok(-1);
        } else if def.NeedsInput() {
          ghost var before := source.pos;
          Refill(source);
          ChunksJoin(crc0, source.data, pos0, before, source.pos);
        } else {
          return Err(DataFormat);
        }
        deflated := def.Deflate(b, off, len);
      }
      return Ok(deflated);
    }
  }

  /** GzipWriter(out, buffer_size), which rejects a size that is not
      positive with an IllegalArgumentException. */
  method NewGzipWriter(bufferSize: int) returns (r: Result<GzipWriter>)
    ensures bufferSize <= 0 <==> r == Err(IllegalArgument)
    ensures r.Ok? ==> r.value.Valid() && r.value.inputBytes.Length == bufferSize && r.value.out == []
  {
    if bufferSize <= 0 {
      return Err(IllegalArgument);
    }
    var w := new GzipWriter.WithBufferSize(bufferSize);
    return Ok(w);
  }
}

# jwat core: recording stream, ARC header-line parsing, GZip entry checks and GZip member writing

This project models in Dafny four pieces of the jwat web-archive toolkit and proves properties of them.

- **MaxLengthRecordingInputStream** (`recording_stream.dfy`). An input stream with a hard ceiling on the bytes it hands out. It keeps an in-memory recording of what it read.
  - The wrapped stream is a `ByteSource` (`common.dfy`): a byte sequence read through a cursor.
  - A ghost log of transfers (`Delivered` / `Skipped`) connects the counter, the recording and the wrapped stream's position.
  - `skip` delegates to the recording `read` and then records the same bytes again. The model keeps that behaviour as written and proves its consequence: the recording holds `bytesRead + 2 * bytesSkipped` bytes, while the ceiling is charged `bytesRead + bytesSkipped`.
- **ArcRecordBase** (`arc_fields.dfy`, `arc_record.dfy`). Parsing an ARC header line and keeping the record's diagnostics.
  - The line is split on single spaces with empty fields kept (`Split`).
  - Each coercion is a pure function that returns a value and the MISSING / INVALID diagnostics it raises (`Coerced`).
  - `ParseLine` evaluates the whole line.
  - The class `ArcRecordBase` holds the record's fields. Its `ParseRecord`, `PayloadClosed`, `Close` and `IsValidStream` change them in place. `ParseRecord` is proved to store what `ParseLine` yields and to append its diagnostics in order.
  - The URI, IP-address, date and content-type parsers are parameters (`SubParsers`).
- **GzipEntry** of `dk.netarkivet.gzip` (`gzip_entry.dfy`). A GZip member's header and trailer values, plus a bit-set of the checks that failed on them. The intended behaviour of `addErrors` is modelled; the code as written is a finding (below).
- **GzipWriter** (`gzip_writer.dfy`, with the byte layout in `gzip_format.dfy`).
  - The member header and trailer are the pure functions `EncodeHeader` and `EncodeTrailer`.
  - `WriteEntryHeader` and `WriteTrailer` are proved to emit exactly those octets.
  - An independent header decoder reads back what the writer emits (`DecodeEncodeHeader`).
  - CRC-32 is defined bit by bit as in section 8 of RFC 1952.
  - `ReadCompressed` drives a deflater through the `needsInput` / `finished` / `deflate` / `setInput` / `finish` protocol. It is proved to keep the CRC-32 of exactly the plaintext consumed.

Java's integer types are modelled explicitly where they matter:
- the `(int)` narrowing of `available()` (`ToInt32`);
- the `long` product `mtime * 1000` (`ToInt64`);
- Java's truncating division in `date.getTime() / 1000` (`JavaDiv`);
- the low-octet extraction `(byte)((x >> 8k) & 255)`, which is `(x / 256^k) % 256` for every integer, negative ones included.

## Model

| member | source | states |
|---|---|---|
| Common.ToInt32 | jwat-common/src/main/java/org/jwat/common/MaxLengthRecordingInputStream.java:57-58 | The `(int)` cast: the result is a Java int, congruent to the input modulo 2^32, and equal to it when it already fits |
| Common.ToInt64 | jwat-gzip/src/main/java/org/jwat/gzip/GzipWriter.java:178 | Java `long` wrap-around: the result is a long, congruent modulo 2^64, and unchanged when it fits |
| Common.JavaDiv | jwat-gzip/src/main/java/org/jwat/gzip/GzipWriter.java:175 | Java `/` on a long: truncates toward zero, so the remainder has the sign of the dividend and is smaller than the divisor |
| Common.ParseDecimal | jwat-arc/src/main/java/org/jwat/arc/ArcRecordBase.java:427 | Integer.valueOf / Long.valueOf: an accepted text starts with a digit or sign, and its value lies in the type's range |
| Common.ParseFormatDecimal | jwat-arc/src/main/java/org/jwat/arc/ArcRecordBase.java:198 | A number printed by toString parses back to itself whenever it is in range |
| Common.ParseDecimalRejectsNonNumbers | jwat-arc/src/main/java/org/jwat/arc/ArcRecordBase.java:425-431 | An empty text, or one not starting with a digit or sign, never parses |
| Common.FormatDecimal | jwat-arc/src/main/java/org/jwat/arc/ArcRecordBase.java:198 | Long.toString yields a non-empty text; its round trip is ParseFormatDecimal |
| Common.ParseJavaInt | jwat-arc/src/main/java/org/jwat/arc/ArcRecordBase.java:427 | Integer.valueOf: an accepted value is a Java int; an empty text is rejected |
| Common.ParseJavaLong | jwat-arc/src/main/java/org/jwat/arc/ArcRecordBase.java:463 | Long.valueOf: an accepted value is a Java long; an empty text is rejected |
| Common.ByteSource.ReadByte | jwat-common/src/main/java/org/jwat/common/MaxLengthRecordingInputStream.java:79 | The wrapped stream's read(): the next byte and one step forward, or -1 at the end with the position kept |
| Common.ByteSource.Read | jwat-common/src/main/java/org/jwat/common/MaxLengthRecordingInputStream.java:97 | The wrapped stream's read(b, off, len): 0 for len 0, -1 at the end, otherwise min(len, remaining) bytes copied into b[off..], with the rest of b untouched |
| RecordingStream.ConsumedLength | jwat-common/src/main/java/org/jwat/common/MaxLengthRecordingInputStream.java:96-113 | The bytes taken from the wrapped stream are the bytes read plus the bytes skipped |
| RecordingStream.RecordedLength | jwat-common/src/main/java/org/jwat/common/MaxLengthRecordingInputStream.java:100-113 | The recording holds bytesRead + 2 * bytesSkipped bytes |
| RecordingStream.RecordingWithoutSkips | jwat-common/src/main/java/org/jwat/common/MaxLengthRecordingInputStream.java:76-104 | Without skips, the recording equals, byte for byte, what was taken from the wrapped stream |
| RecordingStream.SkippedByteRecordedTwice | jwat-common/src/main/java/org/jwat/common/MaxLengthRecordingInputStream.java:110-113 | A single skipped byte is consumed once and recorded twice |
| RecordingStream.LogExtended | jwat-common/src/main/java/org/jwat/common/MaxLengthRecordingInputStream.java:82 | One more transfer extends what was consumed by its bytes, and the recording by its bytes (twice for a skip) |
| RecordingStream.MaxLengthRecordingInputStream.DeliveredWithinLimit | jwat-common/src/main/java/org/jwat/common/MaxLengthRecordingInputStream.java:96-99 | The bytes taken never exceed the constructor's limit (none for a non-positive one), and the source advanced by limit - available |
| RecordingStream.MaxLengthRecordingInputStream.constructor | jwat-common/src/main/java/org/jwat/common/MaxLengthRecordingInputStream.java:33-37 | Wraps the source with an empty recording and the given counter |
| RecordingStream.MaxLengthRecordingInputStream.GetRecording | jwat-common/src/main/java/org/jwat/common/MaxLengthRecordingInputStream.java:43-45 | Returns the recording, whose length is bytesRead + 2 * bytesSkipped |
| RecordingStream.MaxLengthRecordingInputStream.Close | jwat-common/src/main/java/org/jwat/common/MaxLengthRecordingInputStream.java:51-53 | Changes neither the stream's state nor the wrapped stream's position |
| RecordingStream.MaxLengthRecordingInputStream.Available | jwat-common/src/main/java/org/jwat/common/MaxLengthRecordingInputStream.java:56-59 | The remaining count clamped to Integer.MAX_VALUE; the int narrowing of a negative count |
| RecordingStream.MaxLengthRecordingInputStream.MarkSupported | jwat-common/src/main/java/org/jwat/common/MaxLengthRecordingInputStream.java:62-64 | Always false |
| RecordingStream.MaxLengthRecordingInputStream.Mark | jwat-common/src/main/java/org/jwat/common/MaxLengthRecordingInputStream.java:67-68 | Changes nothing |
| RecordingStream.MaxLengthRecordingInputStream.Reset | jwat-common/src/main/java/org/jwat/common/MaxLengthRecordingInputStream.java:71-73 | Always fails with UnsupportedOperation |
| RecordingStream.MaxLengthRecordingInputStream.ReadByte | jwat-common/src/main/java/org/jwat/common/MaxLengthRecordingInputStream.java:76-86 | -1 without touching the source when the counter is exhausted; otherwise the source's next byte, with available one less and exactly that byte appended to the recording; a -1 from the source changes nothing |
| RecordingStream.MaxLengthRecordingInputStream.Read | jwat-common/src/main/java/org/jwat/common/MaxLengthRecordingInputStream.java:94-104 | Asks for at most min(len, available) bytes; on l > 0 available drops by l and the recording grows by exactly b[off..off+l], which are the source's next bytes; on 0 or -1 nothing changes |
| RecordingStream.MaxLengthRecordingInputStream.ReadArray | jwat-common/src/main/java/org/jwat/common/MaxLengthRecordingInputStream.java:89-91 | read(b, 0, b.length): -1 when available is exhausted, or when b is non-empty and the source is at its end; 0 for an empty b; otherwise min(b.length, available, remaining) bytes, with available, recording and log updated as for read(b, off, len) |
| RecordingStream.MaxLengthRecordingInputStream.Skip | jwat-common/src/main/java/org/jwat/common/MaxLengthRecordingInputStream.java:107-119 | Consumes min(n, available, 1024, remaining) bytes; returns 0, never -1, when nothing was consumed; the skipped chunk is appended to the recording twice |
| ArcFields.Split | jwat-arc/src/main/java/org/jwat/arc/ArcRecordBase.java:143 | split(" ", -1) always yields at least one field |
| ArcFields.SplitCount | jwat-arc/src/main/java/org/jwat/arc/ArcRecordBase.java:143-147 | The number of fields is the number of spaces plus one |
| ArcFields.JoinSplit | jwat-arc/src/main/java/org/jwat/arc/ArcRecordBase.java:143 | Rejoining the fields with single spaces gives back the line |
| ArcFields.SplitFieldsHaveNoSpace | jwat-arc/src/main/java/org/jwat/arc/ArcRecordBase.java:143 | No field contains a space |
| ArcFields.SplitJoin | jwat-arc/src/main/java/org/jwat/arc/ArcRecordBase.java:143 | Splitting a join of space-free fields gives back the fields |
| ArcFields.GetArrayValue | jwat-arc/src/main/java/org/jwat/arc/ArcRecordBase.java:154-161 | The field at a position exactly when the position is in range, otherwise nothing |
| ArcFields.ParseInteger | jwat-arc/src/main/java/org/jwat/arc/ArcRecordBase.java:423-434 | Empty or absent text: no value and no diagnostic; unparsable: exactly one INVALID; parsable: exactly Integer.valueOf's value and no diagnostic |
| ArcFields.ParseIntegerOpt | jwat-arc/src/main/java/org/jwat/arc/ArcRecordBase.java:443-451 | A parsable text yields exactly Integer.valueOf's value and no diagnostic; a mandatory integer raises INVALID then MISSING for an unparsable text, MISSING alone for an empty one; optional: as ParseInteger |
| ArcFields.ParseLong | jwat-arc/src/main/java/org/jwat/arc/ArcRecordBase.java:459-473 | Exactly one MISSING for absent or empty text, exactly one INVALID for an unparsable one, exactly Long.valueOf's value and no diagnostic for a parsable one |
| ArcFields.ParseString | jwat-arc/src/main/java/org/jwat/arc/ArcRecordBase.java:482-498 | The text comes back unchanged; MISSING only when mandatory and absent or blank |
| ArcFields.ParseWith | jwat-arc/src/main/java/org/jwat/arc/ArcRecordBase.java:505-590 | parseUri, parseIpAddress, parseDate and parseContentType: at most one diagnostic, about the field parsed, and a value exactly when there is none; a text the sub-parser accepts yields exactly its value |
| ArcFields.ParseWithOutcome | jwat-arc/src/main/java/org/jwat/arc/ArcRecordBase.java:505-590 | URI, IP, date and content type: exactly one MISSING when absent or empty, exactly one INVALID when the sub-parser rejects, exactly the sub-parser's value and no diagnostic when it accepts the text |
| ArcFields.OffsetErrors | jwat-arc/src/main/java/org/jwat/arc/ArcRecordBase.java:195-199 | The offset check only raises diagnostics about the offset field |
| ArcFields.ParseVersion2 | jwat-arc/src/main/java/org/jwat/arc/ArcRecordBase.java:168-189 | The five version 2 coercions: every diagnostic is about a version 2 field, and the optional location never raises one |
| ArcFields.LineErrors | jwat-arc/src/main/java/org/jwat/arc/ArcRecordBase.java:146-199 | The line's diagnostics in the order raised: the compliance INVALID first when the field count is wrong, the offset check's last |
| ArcFields.ParseLine | jwat-arc/src/main/java/org/jwat/arc/ArcRecordBase.java:140-201 | What parseRecord extracts from a present line; every diagnostic of its coercions names the field it coerced |
| ArcFields.LineRecordErrors | jwat-arc/src/main/java/org/jwat/arc/ArcRecordBase.java:146-152 | Of a line's diagnostics, only the compliance check's are about the record itself |
| ArcFields.LineLengthErrors | jwat-arc/src/main/java/org/jwat/arc/ArcRecordBase.java:190-192 | Of a line's diagnostics, only the length coercion's are about the length field |
| ArcFields.ParseLineCompliance | jwat-arc/src/main/java/org/jwat/arc/ArcRecordBase.java:141-152 | Compliant iff spaces + 1 equals the expected field count; a mismatch raises exactly one INVALID on the record, as the first diagnostic, and the fields are still coerced |
| ArcFields.ParseLineLength | jwat-arc/src/main/java/org/jwat/arc/ArcRecordBase.java:190-192 | The last field is the length: exactly one MISSING if empty, exactly one INVALID if not a long, its value and no diagnostic otherwise |
| ArcFields.LengthDiagnostics | jwat-arc/src/main/java/org/jwat/arc/ArcRecordBase.java:459-473 | The length value and length diagnostics of a line, from its last field |
| ArcFields.ParseLineVersion2Only | jwat-arc/src/main/java/org/jwat/arc/ArcRecordBase.java:168-189 | Result code, checksum, location, offset and filename are parsed iff the version is 2 |
| ArcFields.ParseLineOffsetCheck | jwat-arc/src/main/java/org/jwat/arc/ArcRecordBase.java:195-199 | INVALID on the offset iff an offset is known, startOffset > 0 and the two differ; it is the line's last diagnostic; a start offset of 0 or below is never checked |
| ArcFields.Version1LineWithoutDiagnostics | jwat-arc/src/main/java/org/jwat/arc/ArcRecordBase.java:140-201 | A well-formed five-field version 1 line is compliant, raises no diagnostic and has length 1234 |
| ArcFields.Version2Coercions | jwat-arc/src/main/java/org/jwat/arc/ArcRecordBase.java:168-189 | On a version 2 line with an empty checksum: result code 200, offset 100, one MISSING for the checksum |
| ArcFields.Version2TypedFields | jwat-arc/src/main/java/org/jwat/arc/ArcRecordBase.java:146-166 | The ten-field version 2 line is compliant and its four typed fields raise nothing |
| ArcFields.Version2OffsetCheck | jwat-arc/src/main/java/org/jwat/arc/ArcRecordBase.java:181-199 | The declared offset 100 is flagged exactly when the record starts at another positive offset |
| ArcFields.Version2LineDiagnostics | jwat-arc/src/main/java/org/jwat/arc/ArcRecordBase.java:140-201 | The whole version 2 line: its values, and its diagnostics in order (checksum MISSING, then the offset INVALID when applicable) |
| ArcFields.CleanVersion2LineErrors | jwat-arc/src/main/java/org/jwat/arc/ArcRecordBase.java:140-201 | A compliant version 2 line with clean typed fields and length reports only its version 2 diagnostics and the offset check |
| ArcRecord.PayloadCloseErrors | jwat-arc/src/main/java/org/jwat/arc/ArcRecordBase.java:273-278 | At most one diagnostic, "Payload length mismatch" on the record, present iff a payload has unavailable bytes |
| ArcRecord.ArcRecordBase.constructor | jwat-arc/src/main/java/org/jwat/arc/ArcRecordBase.java:49-87 | The field defaults: no errors, not compliant, no result code, checksum and location "-", no offset, no filename, nothing closed |
| ArcRecord.ArcRecordBase.AddValidationError | jwat-arc/src/main/java/org/jwat/arc/ArcRecordBase.java:241-247 | The error list grows by exactly the new entry and keeps the earlier ones |
| ArcRecord.ArcRecordBase.GetValidationErrors | jwat-arc/src/main/java/org/jwat/arc/ArcRecordBase.java:231-233 | Nothing iff there are no errors; otherwise the errors in the order raised |
| ArcRecord.ArcRecordBase.HasErrors | jwat-arc/src/main/java/org/jwat/arc/ArcRecordBase.java:223-225 | True only when at least one validation error was raised; a list never created counts as empty |
| ArcRecord.ArcRecordBase.IsValid | jwat-arc/src/main/java/org/jwat/arc/ArcRecordBase.java:215-217 | A valid record has compliant fields and no validation error |
| ArcRecord.ArcRecordBase.StoreHeaderFields | jwat-arc/src/main/java/org/jwat/arc/ArcRecordBase.java:146-166 | Stores compliance, raw and parsed URL, IP, date and content type; the protocol is the scheme of a URL that parsed, else unchanged |
| ArcRecord.ArcRecordBase.StoreVersion2Fields | jwat-arc/src/main/java/org/jwat/arc/ArcRecordBase.java:168-189 | Stores the five version 2 values |
| ArcRecord.ArcRecordBase.ApplyLine | jwat-arc/src/main/java/org/jwat/arc/ArcRecordBase.java:146-199 | Stores a parsed line's fields and length, appends its diagnostics; version 2 fields change only on a version 2 line |
| ArcRecord.ArcRecordBase.ParseRecord | jwat-arc/src/main/java/org/jwat/arc/ArcRecordBase.java:140-201 | A null line clears compliance and leaves every other field and the errors as they were; otherwise the fields hold ParseLine's values and the errors become the old ones followed by the line's, in order |
| ArcRecord.ArcRecordBase.PayloadClosed | jwat-arc/src/main/java/org/jwat/arc/ArcRecordBase.java:271-298 | The first call adds the truncation diagnostic iff needed and takes the digests that exist; later calls change nothing |
| ArcRecord.ArcRecordBase.Close | jwat-arc/src/main/java/org/jwat/arc/ArcRecordBase.java:313-323 | Ends closed, payload-closed and without a payload; a first call on an open payload takes its block digest and the HTTP response's payload digest where they exist, as payloadClosed does, and otherwise keeps both digests; a repeated call changes nothing, so at most one truncation diagnostic is ever raised |
| ArcRecord.ArcRecordBase.IsValidStream | jwat-arc/src/main/java/org/jwat/arc/ArcRecordBase.java:402-415 | True iff the rest of the stream holds only CR and LF; reads to the end, or stops just after the first other byte |
| GzipEntries.HeaderErrors | jwat-gzip/src/main/java/dk/netarkivet/gzip/GzipEntry.java:111-124 | INVALID_RESERVED_FLAGS iff reservedFlags != 0; INVALID_CRC16 iff readCrc16 > 0 and differs from the computed value; no other bit |
| GzipEntries.IsErrorSet | jwat-gzip/src/main/java/dk/netarkivet/gzip/GzipEntry.java:456-458 | A set error bit implies a non-empty error set and a non-empty mask |
| GzipEntries.FlagsIndependent | jwat-gzip/src/main/java/dk/netarkivet/gzip/GzipEntry.java:49-54 | Setting one error flag sets it and never changes what another flag reports |
| GzipEntries.ErrorsMonotone | jwat-gzip/src/main/java/dk/netarkivet/gzip/GzipEntry.java:452-458 | Adding errors only sets bits: a failed check is never cleared |
| GzipEntries.MemberValidIffChecksPass | jwat-gzip/src/main/java/dk/netarkivet/gzip/GzipEntry.java:356-358 | A member's error set is empty iff all four checks passed |
| GzipEntries.NoErrorIffEveryTestPasses | jwat-gzip/src/main/java/dk/netarkivet/gzip/GzipEntry.java:368-429 | An error set is empty iff no is*Valid test fails |
| GzipEntries.MemberAlwaysValidAsWritten | jwat-gzip/src/main/java/dk/netarkivet/gzip/GzipEntry.java:452-454 | As written, every member ends with errors == 0 whatever its checks found |
| GzipEntries.ReservedFlagsLostAsWritten | jwat-gzip/src/main/java/dk/netarkivet/gzip/GzipEntry.java:111-124 | Reserved flags 4 and a CRC16 mismatch: valid as written, both flags set as intended |
| GzipEntries.GzipEntry.Empty | jwat-gzip/src/main/java/dk/netarkivet/gzip/GzipEntry.java:77-90 | No errors, and the trailer values all -1 |
| GzipEntries.GzipEntry.constructor | jwat-gzip/src/main/java/dk/netarkivet/gzip/GzipEntry.java:93-125 | Stores the header values; the errors are HeaderErrors of the inputs; the trailer values all -1 |
| GzipEntries.GzipEntry.AddErrors | jwat-gzip/src/main/java/dk/netarkivet/gzip/GzipEntry.java:452-454 | As documented: the given bits are ORed into the field |
| GzipEntries.GzipEntry.IsValid | jwat-gzip/src/main/java/dk/netarkivet/gzip/GzipEntry.java:356-358 | A valid entry is compliant; the converse direction with every test is ValidIffEveryTestPasses |
| GzipEntries.GzipEntry.IsCompliant | jwat-gzip/src/main/java/dk/netarkivet/gzip/GzipEntry.java:345-347 | An entry without errors is compliant; only the reserved-flags error makes it non-compliant |
| GzipEntries.GzipEntry.IsExtraFlagsValid | jwat-gzip/src/main/java/dk/netarkivet/gzip/GzipEntry.java:368-370 | An entry without errors passes the extra-flags test |
| GzipEntries.GzipEntry.IsOperatingSystemValid | jwat-gzip/src/main/java/dk/netarkivet/gzip/GzipEntry.java:379-381 | An entry without errors passes the operating-system test |
| GzipEntries.GzipEntry.IsReservedFlagsValid | jwat-gzip/src/main/java/dk/netarkivet/gzip/GzipEntry.java:389-391 | An entry without errors passes the reserved-flags test |
| GzipEntries.GzipEntry.IsISizeValid | jwat-gzip/src/main/java/dk/netarkivet/gzip/GzipEntry.java:401-403 | An entry without errors passes the ISIZE test |
| GzipEntries.GzipEntry.IsHeaderCrcValid | jwat-gzip/src/main/java/dk/netarkivet/gzip/GzipEntry.java:414-416 | An entry without errors passes the header CRC16 test |
| GzipEntries.GzipEntry.IsDataCrcValid | jwat-gzip/src/main/java/dk/netarkivet/gzip/GzipEntry.java:427-429 | An entry without errors passes the data CRC32 test |
| GzipEntries.GzipEntry.ValidIffEveryTestPasses | jwat-gzip/src/main/java/dk/netarkivet/gzip/GzipEntry.java:345-429 | isValid iff every is*Valid holds; a valid entry is compliant |
| GzipEntries.GzipEntry.SetSizes | jwat-gzip/src/main/java/dk/netarkivet/gzip/GzipEntry.java:431-434 | Stores both sizes and nothing else |
| GzipEntries.GzipEntry.SetISize | jwat-gzip/src/main/java/dk/netarkivet/gzip/GzipEntry.java:436-442 | Stores both values and adds INVALID_ISIZE iff they differ |
| GzipEntries.GzipEntry.SetDataCrc | jwat-gzip/src/main/java/dk/netarkivet/gzip/GzipEntry.java:444-450 | Stores both values and adds INVALID_CRC32 iff they differ |
| GzipEntries.CheckMember | jwat-gzip/src/main/java/dk/netarkivet/gzip/GzipEntry.java:93-125 | After the constructor, setISize and setDataCrc, the entry is valid iff every check passed |
| GzipFormat.Crc32 | jwat-gzip/src/main/java/org/jwat/gzip/GzipWriter.java:123-211 | The CRC-32 after reset() and update() over the data; nothing fed gives 0 |
| GzipFormat.UpdateCrcEmpty | jwat-gzip/src/main/java/org/jwat/gzip/GzipWriter.java:191-209 | An update with no octets leaves the running CRC unchanged |
| GzipFormat.UpdateCrcAppend | jwat-gzip/src/main/java/org/jwat/gzip/GzipWriter.java:191-209 | Updating the CRC piece by piece equals updating it with the concatenation |
| GzipFormat.Le16RoundTrip | jwat-gzip/src/main/java/org/jwat/gzip/GzipWriter.java:138-139 | Two little-endian octets read back as the low 16 bits |
| GzipFormat.Le32RoundTrip | jwat-gzip/src/main/java/org/jwat/gzip/GzipWriter.java:184-187 | Four little-endian octets read back as the low 32 bits |
| GzipFormat.Latin1 | jwat-gzip/src/main/java/org/jwat/gzip/GzipWriter.java:147 | getBytes("ISO-8859-1"): one octet per character, the code itself below 256, '?' otherwise |
| GzipFormat.FixedHeader | jwat-gzip/src/main/java/org/jwat/gzip/GzipWriter.java:180-189 | The fixed header is exactly 10 octets |
| GzipFormat.Low16 | jwat-gzip/src/main/java/org/jwat/gzip/GzipWriter.java:211 | The low half of the CRC-32 lies in [0, 65536) |
| GzipFormat.HeaderCrc16 | jwat-gzip/src/main/java/org/jwat/gzip/GzipWriter.java:211 | The CRC16 value lies in [0, 65536) |
| GzipFormat.EncodeHeaderLength | jwat-gzip/src/main/java/org/jwat/gzip/GzipWriter.java:180-216 | Header length is 10 plus each flagged section (2 + XLEN, name + NUL, comment + NUL, 2 for CRC16); it starts with the fixed header |
| GzipFormat.TrailerRoundTrip | jwat-gzip/src/main/java/org/jwat/gzip/GzipWriter.java:231-240 | The trailer is 8 octets that read back as the low 32 bits of CRC32 and of ISIZE |
| GzipFormat.EncodeTrailer | jwat-gzip/src/main/java/org/jwat/gzip/GzipWriter.java:231-240 | The trailer is exactly 8 octets; TrailerRoundTrip reads both values back |
| GzipFormat.DecodeFixed | jwat-gzip/src/main/java/org/jwat/gzip/GzipWriter.java:180-189 | The fixed fields read back from their 10 octets |
| GzipFormat.ReadSectionsOf | jwat-gzip/src/main/java/org/jwat/gzip/GzipWriter.java:192-209 | The optional sections read back in order, each iff flagged |
| GzipFormat.DecodeHeader | jwat-gzip/src/main/java/org/jwat/gzip/GzipWriter.java:180-216 | An independent reader of the header layout: a header it reads takes at least the 10 fixed octets and no more than the input |
| GzipFormat.DecodeEncodeHeader | jwat-gzip/src/main/java/org/jwat/gzip/GzipWriter.java:180-216 | Decoding an emitted header yields the header, its CRC16 iff FHCRC, and its exact length, whatever follows |
| GzipFormat.EncodedHeaderCrcMatches | jwat-gzip/src/main/java/org/jwat/gzip/GzipWriter.java:191-216 | The emitted CRC16 is the low half of the CRC-32 of every header octet before it |
| GzipWriting.ChunksJoin | jwat-gzip/src/main/java/org/jwat/gzip/GzipWriter.java:261-264 | Chunk-by-chunk CRC updates cover the concatenated chunks |
| GzipWriting.FlagsAfterOr | jwat-gzip/src/main/java/org/jwat/gzip/GzipWriter.java:129-170 | Each of the five flags is set afterwards iff it was set before or its condition holds; no bit is cleared |
| GzipWriting.FlagsAnnounceSections | jwat-gzip/src/main/java/org/jwat/gzip/GzipWriter.java:135-170 | With preset flags agreeing with the entry, each section flag is set iff the entry has that section |
| GzipWriting.CrcOverPieces | jwat-gzip/src/main/java/org/jwat/gzip/GzipWriter.java:191-209 | The running CRC over the header pieces is the CRC-32 of their concatenation |
| GzipWriting.HeaderPiecesJoin | jwat-gzip/src/main/java/org/jwat/gzip/GzipWriter.java:190-215 | The pieces written in order make up EncodeHeader |
| GzipWriting.Deflater.Reset | jwat-gzip/src/main/java/org/jwat/gzip/GzipWriter.java:124 | No pending input, no finish request |
| GzipWriting.Deflater.SetInput | jwat-gzip/src/main/java/org/jwat/gzip/GzipWriter.java:263 | The pending input becomes the given chunk |
| GzipWriting.Deflater.Finish | jwat-gzip/src/main/java/org/jwat/gzip/GzipWriter.java:267 | The finish request is recorded |
| GzipWriting.Deflater.Deflate | jwat-gzip/src/main/java/org/jwat/gzip/GzipWriter.java:256 | Delivers min(len, pending) octets into b[off..] and nothing else; 0 exactly when nothing is pending or len is 0 |
| GzipWriting.GzipWriter.constructor | jwat-gzip/src/main/java/org/jwat/gzip/GzipWriter.java:74-80 | Nothing written, CRC 0, no entry, an input buffer of 1024 octets |
| GzipWriting.GzipWriter.WithBufferSize | jwat-gzip/src/main/java/org/jwat/gzip/GzipWriter.java:87-96 | The same with an input buffer of the given positive size |
| GzipWriting.NewGzipWriter | jwat-gzip/src/main/java/org/jwat/gzip/GzipWriter.java:87-96 | IllegalArgument iff the buffer size is not positive; otherwise a writer with that buffer size |
| GzipWriting.GzipWriter.WriteEntryHeader | jwat-gzip/src/main/java/org/jwat/gzip/GzipWriter.java:119-224 | FLG gains exactly the bits for what the entry holds; MTIME and date are reconciled; XLEN is the extra length; the output grows by exactly EncodeHeader of the entry; CRC16 stored when FHCRC; CRC, ISIZE, writer and EOF reset |
| GzipWriting.GzipWriter.StartEntry | jwat-gzip/src/main/java/org/jwat/gzip/GzipWriter.java:123-125 | CRC reset, deflater reset, the entry becomes current |
| GzipWriting.GzipWriter.FillHeader | jwat-gzip/src/main/java/org/jwat/gzip/GzipWriter.java:129-179 | Flags, XLEN, the encoded name and comment, then the time fields, as in WriteEntryHeader |
| GzipWriting.GzipWriter.SetFlags | jwat-gzip/src/main/java/org/jwat/gzip/GzipWriter.java:129-170 | The ORed flags, section flags set exactly for present data, FHCRC iff preset or asked for |
| GzipWriting.GzipWriter.OrFlags | jwat-gzip/src/main/java/org/jwat/gzip/GzipWriter.java:129-170 | The five conditional ORs in order, with XLEN and the encoded name and comment |
| GzipWriting.GzipWriter.SetTextFlag | jwat-gzip/src/main/java/org/jwat/gzip/GzipWriter.java:129-131 | FTEXT ORed in iff bFText |
| GzipWriting.GzipWriter.SetExtraFlag | jwat-gzip/src/main/java/org/jwat/gzip/GzipWriter.java:135-140 | FEXTRA ORed in, XLEN set to the extra length and its two little-endian octets buffered, iff there is an extra field |
| GzipWriting.GzipWriter.SetNameFlag | jwat-gzip/src/main/java/org/jwat/gzip/GzipWriter.java:144-152 | FNAME ORed in and the Latin-1 name buffered iff there is a name |
| GzipWriting.GzipWriter.SetCommentFlag | jwat-gzip/src/main/java/org/jwat/gzip/GzipWriter.java:156-164 | FCOMMENT ORed in and the Latin-1 comment buffered iff there is a comment |
| GzipWriting.GzipWriter.SetHeaderCrcFlag | jwat-gzip/src/main/java/org/jwat/gzip/GzipWriter.java:168-170 | FHCRC ORed in iff bFhCrc |
| GzipWriting.GzipWriter.SetTime | jwat-gzip/src/main/java/org/jwat/gzip/GzipWriter.java:174-179 | With a date, MTIME is the date in seconds (truncating division); otherwise a non-zero MTIME sets the date to MTIME * 1000 ms (long arithmetic); a zero MTIME leaves both |
| GzipWriting.GzipWriter.FinishHeader | jwat-gzip/src/main/java/org/jwat/gzip/GzipWriter.java:180-223 | Emits exactly EncodeHeader of the entry and prepares for data |
| GzipWriting.GzipWriter.EmitHeader | jwat-gzip/src/main/java/org/jwat/gzip/GzipWriter.java:180-216 | Emits exactly EncodeHeader; when FHCRC, crc16 == comp_crc16 == the header CRC16 |
| GzipWriting.GzipWriter.EmitFixedHeader | jwat-gzip/src/main/java/org/jwat/gzip/GzipWriter.java:180-191 | Emits the 10 fixed octets and folds them into the CRC |
| GzipWriting.GzipWriter.EmitSections | jwat-gzip/src/main/java/org/jwat/gzip/GzipWriter.java:192-209 | Emits extra, name and comment sections in order, each iff flagged, and folds them into the CRC |
| GzipWriting.GzipWriter.EmitExtra | jwat-gzip/src/main/java/org/jwat/gzip/GzipWriter.java:192-197 | XLEN and the extra field iff FEXTRA, into output and CRC |
| GzipWriting.GzipWriter.EmitName | jwat-gzip/src/main/java/org/jwat/gzip/GzipWriter.java:198-203 | The name and its NUL iff FNAME, into output and CRC |
| GzipWriting.GzipWriter.EmitComment | jwat-gzip/src/main/java/org/jwat/gzip/GzipWriter.java:204-209 | The comment and its NUL iff FCOMMENT, into output and CRC |
| GzipWriting.GzipWriter.EmitHeaderCrc | jwat-gzip/src/main/java/org/jwat/gzip/GzipWriter.java:210-216 | When FHCRC: comp_crc16 and crc16 become the low half of the running CRC, written little-endian; otherwise nothing changes |
| GzipWriting.GzipWriter.Prepare | jwat-gzip/src/main/java/org/jwat/gzip/GzipWriter.java:220-223 | CRC reset, ISIZE 0, the entry's writer is this writer, not at EOF |
| GzipWriting.GzipWriter.WriteTrailer | jwat-gzip/src/main/java/org/jwat/gzip/GzipWriter.java:231-242 | The output grows by exactly EncodeTrailer(crc32, isize) |
| GzipWriting.GzipWriter.Refill | jwat-gzip/src/main/java/org/jwat/gzip/GzipWriter.java:260-268 | Either a non-empty chunk is read, handed to the deflater and folded into the CRC, or at the end of input finish() is requested |
| GzipWriting.GzipWriter.ReadCompressed | jwat-gzip/src/main/java/org/jwat/gzip/GzipWriter.java:254-275 | Returns a positive count at most len, or -1 only when the deflater has finished, or fails with DataFormat when the deflater neither delivers, needs input nor finished; the CRC and the deflater's input cover exactly the octets consumed; finish() only at end of input |

## Left out

- Exceptions from I/O, `flush`, and the buffering of `BufferedOutputStream`. The output stream is the sequence of octets written.
- Common.ByteSource: the wrapped input stream always delivers as many bytes as asked for and available. Short reads, which Java streams may return, are not modelled.
- Digits are ASCII `0`-`9`. The other Unicode digits that Integer.valueOf and Long.valueOf accept are not modelled.
- Null references are not modelled; the `in == null`, `out == null` and `entry == null` checks and their IllegalArgumentExceptions are left out.
  - A record line may be absent (`Option`).
  - Raw field values may be absent where Java has null.
- RecordingStream.MaxLengthRecordingInputStream.Skip: a negative `n` is excluded by its precondition. In Java, `Math.min(Math.min(n, available), 1024)` is then `n` itself, and the `(int)` cast keeps only its low 32 bits. So the length asked for depends on those bits:
  - a negative low word reaches the wrapped stream as a negative length, which throws;
  - a zero low word (for example `n` = -2^32) makes skip return 0;
  - a low word from 1 to 1024 (for example `n` = -2^32 + 5 gives 5) reads that many bytes and records them twice, as for a positive `n`;
  - a larger low word asks more of the 1024-byte buffer than it holds, which throws once `available` and the source allow more than 1024 bytes.
- RecordingStream.MaxLengthRecordingInputStream.Read: an `off`/`len` outside the array is excluded by its precondition (Java throws IndexOutOfBoundsException).
- The record's `close` of the underlying ByteArrayOutputStream has no effect on its contents, so Close changes nothing.
- Concurrency (`synchronized` on `mark` and `reset`) is not modelled.
- ArcFields.SubParsers: the URI, IP-address, date and content-type parsers are functions given as parameters, since their code is not part of this model. So is the version block's expected field count.
- ArcConstants is not part of this model. The positions `AF_IDX_*` are fixed as constants 0 to 8, the field order of the ARC version 1 and version 2 record descriptions.
- ArcFields.ArcValidationError: field names are an enumeration rather than the field-name strings.
- `MessageDigest`, `Payload`, `HttpResponse` and payload processing (`processPayload`, `validateNetworkDocContent`, `getPayloadContent`) are left out. The payload is reduced to its unavailable count and the digest it yields.
- Getters, `hasWarnings`, `getWarnings`, `toString` and defensive `Date` copies are not modelled.
- ArcRecord.ArcRecordBase.ParseRecord: a version 1 line leaves the version 2 fields as they were. The offset check then reads the previous offset, as the code does.
- GzipWriting.Deflater: a stand-in that passes its input through unchanged. Compression itself is not modelled.
- GzipWriting.GzipWriter.ReadCompressed: does not state which octets land in `b`, because the stand-in deflater does not compress.
- GzipWriting.GzipWriter.ReadCompressed: with `len` 0 and the input exhausted, the model returns -1. That is because the stand-in deflater reports finished as soon as finish() is requested with no input pending. A java.util.zip.Deflater given no room for output never finishes, and its needsInput() stays true. So the Java loop keeps calling `in.read` and `finish()` without end. The model does not capture that non-termination. It also leaves out the final block a real deflater emits after finish().
- `GzipWriter.close`, which closes the current entry and ends the deflater, is left out. `GzipReaderEntry` is not part of this model.
- GzipWriting.GzipReaderEntry: only the fields the writer reads and sets are modelled.
  - `flg` is the low octet of the Java int flag word. The writer sets bits only in that octet and writes only that octet (`(byte) flg`).
- GzipWriting.GzipWriter.WriteEntryHeader: requires that flags preset in `flg` for extra, name and comment agree with the data the entry has. The code tests `flg`, not the data. A disagreeing preset flag would emit a stale or missing buffer from an earlier call.
- GzipWriting.GzipWriter.WithBufferSize: requires a positive size; NewGzipWriter models the IllegalArgumentException for the rest.
- GzipFormat.DecodeEncodeHeader: proved for representable headers only. That means field values within their octets, an extra field under 65536 octets and no zero octet inside the name or comment. For a larger extra field the writer truncates XLEN to 16 bits, as modelled by `Le16`.
- GzipFormat.DecodeHeader: returns the stored CRC16 instead of rejecting a mismatch. HeaderCrcMatches states the check. A mismatch is an entry error flag (INVALID_CRC16), not a failure to read.
- GzipConstants is not part of this model. The flag values, the magic number 0x8B1F and CM 8 are those of section 2.3.1 of RFC 1952.
- GzipEntries: the operating-system and extra-flags checks are commented out in the constructor. So INVALID_OPERATING_SYSTEM and INVALID_EXTRA_FLAGS are never set, and HeaderErrors says so.

## Findings

| source | as written | input that shows it | evidently intended | confidence | as-written member | corrected member |
|---|---|---|---|---|---|---|
| jwat-gzip/src/main/java/dk/netarkivet/gzip/GzipEntry.java:452-454 | `addErrors` ORs its parameter into itself; the parameter shadows the field, so no error bit is ever stored and every entry reports valid and compliant | reservedFlags = 4 and a read CRC16 of 0x1234 against a computed 0x4321: errors stays 0 | the documented `this.errors \|= errors`, setting INVALID_RESERVED_FLAGS and INVALID_CRC16 | high (not executed) | GzipEntries.ReservedFlagsLostAsWritten | GzipEntries.GzipEntry.AddErrors |

/** ArcRecordBase: the state an ARC record or version block keeps while its
    header line is parsed and its payload is consumed, with the diagnostics
    collected along the way. */
module ArcRecord {
  import opened Common
  import opened ArcFields

  /** The message attached to a truncated payload. */
  const PAYLOAD_LENGTH_MISMATCH: string := "Payload length mismatch"

  /** What the record sees of its payload: how many of the declared bytes
      could not be read, and the block digest its message digest yields, if
      digesting was enabled. */
  datatype Payload = Payload(unavailable: int, messageDigest: Option<seq<byte>>)

  /** What the record sees of an HTTP response header parsed from the
      payload: the payload digest, if digesting was enabled. */
  datatype HttpResponse = HttpResponse(messageDigest: Option<seq<byte>>)

  /** The diagnostics raised when the payload is closed: a single INVALID on
      the record when the payload was truncated. */
  function PayloadCloseErrors(payload: Option<Payload>): (r: seq<ArcValidationError>)
    ensures |r| <= 1
    ensures r != [] <==> payload.Some? && payload.value.unavailable > 0
    ensures forall i :: 0 <= i < |r| ==>
              r[i] == ArcValidationError(Invalid, ArcRecordField, Some(PAYLOAD_LENGTH_MISMATCH))
  {
    if payload.Some? && payload.value.unavailable > 0
    then [ArcValidationError(Invalid, ArcRecordField, Some(PAYLOAD_LENGTH_MISMATCH))]
    else []
  }

  /** Only CR and LF bytes. */
  predicate OnlyLineEnds(s: seq<byte>)
  {
    forall i :: 0 <= i < |s| ==> s[i] == 10 || s[i] == 13
  }

  class ArcRecordBase {
    /** The record's ARC version, and the number of fields its version block
        declares for a header line. */
    const version: ArcVersion
    const expectedFieldCount: nat
    /** The URI, IP address, date and content-type parsers. */
    const parsers: SubParsers

    /** Offset of the record in the ARC file; 0 or below when unknown. */
    var startOffset: int
    /** Validation errors, in the order they were raised; a list that was
        never created is the empty sequence. */
    var errors: seq<ArcValidationError>
    var hasCompliantFields: bool

    /* Raw fields. */
    var recUrl: Option<string>
    var recIpAddress: Option<string>
    var recArchiveDate: Option<string>
    var recContentType: Option<string>
    var recResultCode: Option<int>
    var recChecksum: Option<string>
    var recLocation: Option<string>
    var recOffset: Option<int>
    var recFilename: Option<string>
    var recLength: Option<int>

    /* Parsed fields. */
    var url: Option<Uri>
    var protocol: Option<string>
    var inetAddress: Option<seq<byte>>
    var archiveDate: Option<int>
    var contentType: Option<ContentType>

    /* Payload. */
    var bPayloadClosed: bool
    var bClosed: bool
    var payload: Option<Payload>
    var httpResponse: Option<HttpResponse>
    var computedBlockDigest: Option<seq<byte>>
    var computedPayloadDigest: Option<seq<byte>>

    /** A closed record has finalised its payload and let go of it. */
    ghost predicate Valid()
      reads this
    {
      bClosed ==> bPayloadClosed && payload.None?
    }

    /** A record as a reader sets it up before parsing its header line: the
        version-2 raw fields hold their defaults (no result code, checksum
        and location "-", no offset), nothing is closed, and no error has
        been raised. The payload and HTTP response are what the record's
        payload processing found. */
    constructor (version: ArcVersion, expectedFieldCount: nat, parsers: SubParsers, startOffset: int,
                 payload: Option<Payload>, httpResponse: Option<HttpResponse>)
      ensures Valid()
      ensures this.version == version && this.expectedFieldCount == expectedFieldCount
      ensures this.parsers == parsers && this.startOffset == startOffset
      ensures this.payload == payload && this.httpResponse == httpResponse
      ensures errors == [] && !hasCompliantFields && !bPayloadClosed && !bClosed
      ensures recResultCode.None? && recChecksum == Some("-") && recLocation == Some("-") && recOffset.None?
      ensures recFilename.None?
      ensures computedBlockDigest.None? && computedPayloadDigest.None?
    {
      this.version := version;
      this.expectedFieldCount := expectedFieldCount;
      this.parsers := parsers;
      this.startOffset := startOffset;
      this.payload := payload;
      this.httpResponse := httpResponse;
      errors := [];
      hasCompliantFields := false;
      recUrl, recIpAddress, recArchiveDate, recContentType := None, None, None, None;
      recResultCode := None;
      recChecksum := Some("-");
      recLocation := Some("-");
      recOffset := None;
      recFilename, recLength := None, None;
      url, protocol, inetAddress, archiveDate, contentType := None, None, None, None, None;
      bPayloadClosed, bClosed := false, false;
      computedBlockDigest, computedPayloadDigest := None, None;
    }

    /** addValidationError: the list grows by exactly this entry. */
    method AddValidationError(errorType: ArcErrorType, field: ArcField, value: Option<string>)
      modifies this`errors
      ensures errors == old(errors) + [ArcValidationError(errorType, field, value)]
    {
      errors := errors + [ArcValidationError(errorType, field, value)];
    }

    /** hasErrors: a list that was never created counts as empty. */
    predicate HasErrors()
      reads this
      ensures HasErrors() ==> |errors| > 0
    {
      errors != []
    }

    /** isValid: compliant fields and no diagnostic. */
    predicate IsValid()
      reads this
      ensures IsValid() ==> hasCompliantFields && errors == []
    {
      hasCompliantFields && !HasErrors()
    }

    /** getValidationErrors: nothing when no error was raised, otherwise the
        errors in the order they were raised. */
    method GetValidationErrors() returns (r: Option<seq<ArcValidationError>>)
      ensures r.None? <==> !HasErrors()
      ensures r.Some? ==> r.value == errors && |r.value| > 0
    {
      r := if HasErrors() then Some(errors) else None;
    }

    /** The version-independent fields hold what was extracted from a line:
        the compliance flag, the raw and parsed URL, IP address, archive date
        and content type, and the protocol of a URL that parsed (otherwise
        the protocol held before). */
    ghost predicate HeaderStored(p: ParsedLine, priorProtocol: Option<string>)
      reads this`hasCompliantFields, this`recUrl, this`recIpAddress, this`recArchiveDate,
            this`recContentType, this`url, this`protocol, this`inetAddress, this`archiveDate, this`contentType
    {
      hasCompliantFields == p.compliant &&
      recUrl == p.recUrl && recIpAddress == p.recIpAddress &&
      recArchiveDate == p.recArchiveDate && recContentType == p.recContentType &&
      url == p.url.value && inetAddress == p.inetAddress.value &&
      archiveDate == p.archiveDate.value && contentType == p.contentType.value &&
      protocol == (if p.url.value.Some? then p.url.value.value.scheme else priorProtocol)
    }

    /** The version 2 fields hold the given values. */
    ghost predicate Version2Stored(v: Version2Fields)
      reads this`recResultCode, this`recChecksum, this`recLocation, this`recOffset, this`recFilename
    {
      recResultCode == v.resultCode.value && recChecksum == v.checksum.value &&
      recLocation == v.location.value && recOffset == v.offset.value &&
      recFilename == v.filename.value
    }

    /** The current values of the version 2 fields. */
    ghost function Version2Values(): (Option<int>, Option<string>, Option<string>, Option<int>, Option<string>)
      reads this`recResultCode, this`recChecksum, this`recLocation, this`recOffset, this`recFilename
    {
      (recResultCode, recChecksum, recLocation, recOffset, recFilename)
    }

    /** Stores the version-independent part of what parseRecord extracted
        from a line. */
    method StoreHeaderFields(p: ParsedLine)
      modifies this`hasCompliantFields, this`recUrl, this`recIpAddress, this`recArchiveDate,
               this`recContentType, this`url, this`protocol, this`inetAddress, this`archiveDate, this`contentType
      ensures HeaderStored(p, old(protocol))
    {
      hasCompliantFields := p.compliant;
      recUrl, recIpAddress, recArchiveDate, recContentType := p.recUrl, p.recIpAddress, p.recArchiveDate, p.recContentType;
      url := p.url.value;
      if url.Some? {
        protocol := url.value.scheme;
      }
      inetAddress, archiveDate, contentType := p.inetAddress.value, p.archiveDate.value, p.contentType.value;
    }

    /** Stores the fields only a version 2 line carries. */
    method StoreVersion2Fields(v: Version2Fields)
      modifies this`recResultCode, this`recChecksum, this`recLocation, this`recOffset, this`recFilename
      ensures Version2Stored(v)
    {
      recResultCode, recChecksum, recLocation := v.resultCode.value, v.checksum.value, v.location.value;
      recOffset, recFilename := v.offset.value, v.filename.value;
    }

    /** parseRecord: splits the header line and fills the raw and parsed
        fields, appending the diagnostics of the line, in order, to the
        errors already raised. A missing line only clears the compliance
        flag. The coercions are evaluated as values (ParseLine); a version 1
        line leaves the version 2 fields at their former values, and the
        offset check then reads the former offset. */
    method ParseRecord(recordLine: Option<string>)
      modifies this`errors, this`hasCompliantFields, this`recUrl, this`recIpAddress, this`recArchiveDate,
               this`recContentType, this`url, this`protocol, this`inetAddress, this`archiveDate, this`contentType,
               this`recResultCode, this`recChecksum, this`recLocation, this`recOffset, this`recFilename,
               this`recLength
      ensures recordLine.None? ==>
                (!hasCompliantFields && errors == old(errors) && recLength == old(recLength) &&
                 recUrl == old(recUrl) && recIpAddress == old(recIpAddress) &&
                 recArchiveDate == old(recArchiveDate) && recContentType == old(recContentType) &&
                 url == old(url) && protocol == old(protocol) && inetAddress == old(inetAddress) &&
                 archiveDate == old(archiveDate) && contentType == old(contentType) &&
                 Version2Values() == old(Version2Values()))
      ensures recordLine.Some? ==>
                var p := ParseLine(recordLine.value, version, expectedFieldCount, startOffset, old(recOffset), parsers);
                HeaderStored(p, old(protocol)) &&
                errors == old(errors) + LineErrors(p) &&
                recLength == p.length.value &&
                (p.v2.Some? ==> Version2Stored(p.v2.value)) &&
                (p.v2.None? ==> Version2Values() == old(Version2Values()))
    {
      if recordLine.Some? {
        var p := ParseLine(recordLine.value, version, expectedFieldCount, startOffset, recOffset, parsers);
        ApplyLine(p);
      } else {
        hasCompliantFields := false;
      }
    }

    /** Keeps what one parsed header line yields: its fields, its length and
        its validation errors. */
    method ApplyLine(p: ParsedLine)
      modifies this`errors, this`hasCompliantFields, this`recUrl, this`recIpAddress, this`recArchiveDate,
               this`recContentType, this`url, this`protocol, this`inetAddress, this`archiveDate, this`contentType,
               this`recResultCode, this`recChecksum, this`recLocation, this`recOffset, this`recFilename,
               this`recLength
      ensures HeaderStored(p, old(protocol))
      ensures errors == old(errors) + LineErrors(p)
      ensures recLength == p.length.value
      ensures p.v2.Some? ==> Version2Stored(p.v2.value)
      ensures p.v2.None? ==> Version2Values() == old(Version2Values())
    {
      errors := errors + LineErrors(p);
      recLength := p.length.value;
      if p.v2.Some? {
        StoreVersion2Fields(p.v2.value);
      }
      StoreHeaderFields(p);
    }

    /** payloadClosed: the first call checks for truncation and takes the
        block and payload digests; later calls do nothing. */
    method PayloadClosed()
      modifies this`errors, this`computedBlockDigest, this`computedPayloadDigest, this`bPayloadClosed
      ensures bPayloadClosed
      ensures old(bPayloadClosed) ==>
                (errors == old(errors) &&
                 computedBlockDigest == old(computedBlockDigest) &&
                 computedPayloadDigest == old(computedPayloadDigest))
      ensures !old(bPayloadClosed) ==>
                errors == old(errors) + PayloadCloseErrors(payload) &&
                computedBlockDigest ==
                  (if payload.Some? && payload.value.messageDigest.Some?
                   then payload.value.messageDigest else old(computedBlockDigest)) &&
                computedPayloadDigest ==
                  (if payload.Some? && httpResponse.Some? && httpResponse.value.messageDigest.Some?
                   then httpResponse.value.messageDigest else old(computedPayloadDigest))
    {
      if !bPayloadClosed {
        if payload.Some? {
          if payload.value.unavailable > 0 {
            AddValidationError(Invalid, ArcRecordField, Some(PAYLOAD_LENGTH_MISMATCH));
          }
          if payload.value.messageDigest.Some? {
            computedBlockDigest := payload.value.messageDigest;
          }
          if httpResponse.Some? {
            if httpResponse.value.messageDigest.Some? {
              computedPayloadDigest := httpResponse.value.messageDigest;
            }
          }
        }
        bPayloadClosed := true;
      }
    }

    /** close: the first call finalises the payload and drops it; later calls
        do nothing. Whatever the number of calls, at most one truncation
        diagnostic is raised. */
    method Close()
      requires Valid()
      modifies this`errors, this`computedBlockDigest, this`computedPayloadDigest, this`bPayloadClosed,
               this`payload, this`bClosed
      ensures Valid() && bClosed && bPayloadClosed && payload.None?
      ensures old(bClosed) ==>
                (errors == old(errors) &&
                 computedBlockDigest == old(computedBlockDigest) &&
                 computedPayloadDigest == old(computedPayloadDigest))
      ensures !old(bClosed) ==>
                errors == old(errors) + (if old(bPayloadClosed) then [] else PayloadCloseErrors(old(payload)))
      ensures !old(bClosed) && old(bPayloadClosed) ==>
                computedBlockDigest == old(computedBlockDigest) &&
                computedPayloadDigest == old(computedPayloadDigest)
      ensures !old(bClosed) && !old(bPayloadClosed) ==>
                computedBlockDigest ==
                  (if old(payload).Some? && old(payload).value.messageDigest.Some?
                   then old(payload).value.messageDigest else old(computedBlockDigest)) &&
                computedPayloadDigest ==
                  (if old(payload).Some? && httpResponse.Some? && httpResponse.value.messageDigest.Some?
                   then httpResponse.value.messageDigest else old(computedPayloadDigest))
    {
      if !bClosed {
        PayloadClosed();
        payload := None;
        bClosed := true;
      }
    }

    /** isValid(InputStream): reads until the end or the first byte that is
        neither LF nor CR, and tells whether the rest of the stream held only
        line ends. */
    method IsValidStream(source: ByteSource) returns (r: bool)
      requires source.Valid()
      modifies source`pos
      ensures source.Valid()
      ensures r <==> OnlyLineEnds(source.data[old(source.pos)..])
      ensures r ==> source.pos == |source.data|
      ensures !r ==>
                (old(source.pos) < source.pos &&
                 OnlyLineEnds(source.data[old(source.pos)..source.pos - 1]) &&
                 source.data[source.pos - 1] != 10 && source.data[source.pos - 1] != 13)
    {
      ghost var start := source.pos;
      r := true;
      var b := source.ReadByte();
      while b != -1
        invariant source.Valid() && start <= source.pos
        invariant b == -1 ==> source.pos == |source.data| && OnlyLineEnds(source.data[start..])
        invariant b != -1 ==> start < source.pos && b == source.data[source.pos - 1] &&
                              OnlyLineEnds(source.data[start..source.pos - 1])
        decreases |source.data| - source.pos, if b == -1 then 0 else 1
      {
        if b != 10 && b != 13 {
          r := false;
          assert source.data[start..][source.pos - 1 - start] == source.data[source.pos - 1];
          break;
        }
        assert source.data[start..source.pos] == source.data[start..source.pos - 1] + [b];
        b := source.ReadByte();
      }
    }
  }
}

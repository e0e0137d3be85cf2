/** The ARC header-line field parser: splitting a record line into its
    positional fields and coercing each field into a typed value, collecting
    MISSING / INVALID diagnostics instead of throwing. */
module ArcFields {
  import opened Common

  datatype ArcVersion = Version1 | Version2

  datatype ArcErrorType = Invalid | Missing

  /** The field a diagnostic is about; ArcRecordField is the record-level
      pseudo-field "ARC record". */
  datatype ArcField =
    | ArcRecordField | UrlField | IpAddressField | DateField | ContentTypeField
    | ResultCodeField | ChecksumField | LocationField | OffsetField | FilenameField
    | LengthField

  datatype ArcValidationError = ArcValidationError(errorType: ArcErrorType, field: ArcField, value: Option<string>)

  /** The message attached to a field-count mismatch. */
  const NOT_COMPLIANT: string := "URL record definition and record definition are not compliant"

  /** Positions of the fields on a header line, in the order of the ARC
      version 1 and version 2 record descriptions. */
  const AF_IDX_URL: nat := 0
  const AF_IDX_IPADDRESS: nat := 1
  const AF_IDX_ARCHIVEDATE: nat := 2
  const AF_IDX_CONTENTTYPE: nat := 3
  const AF_IDX_RESULTCODE: nat := 4
  const AF_IDX_CHECKSUM: nat := 5
  const AF_IDX_LOCATION: nat := 6
  const AF_IDX_OFFSET: nat := 7
  const AF_IDX_FILENAME: nat := 8

  /*
   * Values produced by the sub-parsers, which are outside this model and are
   * supplied as functions.
   */

  datatype Uri = Uri(scheme: Option<string>, text: string)

  datatype ContentType = ContentType(contentType: string, mediaType: string)

  /** URI construction, IPAddressParser.getAddress, ArcDateParser.getDate and
      ContentType.parseContentType: each maps a text to a value or rejects it. */
  datatype SubParsers = SubParsers(
    uri: string -> Option<Uri>,
    ipAddress: string -> Option<seq<byte>>,
    date: string -> Option<int>,
    contentType: string -> Option<ContentType>)

  /** A coerced field: its value, if any, and the diagnostics it raised. */
  datatype Coerced<T> = Coerced(value: Option<T>, errors: seq<ArcValidationError>)

  /*
   * Splitting on single spaces, keeping empty fields (String.split(" ", -1)).
   */

  function Split(s: string): (r: seq<string>)
    ensures |r| >= 1
  {
    if s == [] then [""]
    else if s[0] == ' ' then [""] + Split(s[1..])
    else
      var rest := Split(s[1..]);
      [[s[0]] + rest[0]] + rest[1..]
  }

  function Join(parts: seq<string>): string
    requires |parts| >= 1
  {
    if |parts| == 1 then parts[0] else parts[0] + " " + Join(parts[1..])
  }

  function SpaceCount(s: string): nat
  {
    if s == [] then 0 else (if s[0] == ' ' then 1 else 0) + SpaceCount(s[1..])
  }

  predicate NoSpace(s: string) { forall i :: 0 <= i < |s| ==> s[i] != ' ' }

  /** The number of fields is the number of spaces plus one. */
  lemma {:induction false} SplitCount(s: string)
    ensures |Split(s)| == SpaceCount(s) + 1
  {
    if s != [] {
      SplitCount(s[1..]);
    }
  }

  /** Rejoining the fields with single spaces gives back the line. */
  lemma {:induction false} JoinSplit(s: string)
    ensures Join(Split(s)) == s
  {
    if s == [] {
    } else if s[0] == ' ' {
      JoinSplit(s[1..]);
      assert Split(s)[1..] == Split(s[1..]);
    } else {
      var rest := Split(s[1..]);
      JoinSplit(s[1..]);
      if |rest| == 1 {
        assert s == [s[0]] + s[1..];
      } else {
        assert Join(rest) == rest[0] + " " + Join(rest[1..]);
        assert Split(s)[1..] == rest[1..];
        assert s == [s[0]] + s[1..];
      }
    }
  }

  /** No field contains a space. */
  lemma {:induction false} SplitFieldsHaveNoSpace(s: string)
    ensures forall i :: 0 <= i < |Split(s)| ==> NoSpace(Split(s)[i])
  {
    if s != [] {
      SplitFieldsHaveNoSpace(s[1..]);
    }
  }

  /** Splitting a join of space-free fields gives back the fields. */
  lemma {:induction false} SplitJoin(parts: seq<string>)
    requires |parts| >= 1
    requires forall i :: 0 <= i < |parts| ==> NoSpace(parts[i])
    ensures Split(Join(parts)) == parts
  {
    if |parts| == 1 {
      SplitWord(parts[0], "");
      assert parts[0] + "" == parts[0];
    } else {
      var j := Join(parts[1..]);
      SplitJoin(parts[1..]);
      SplitWord(parts[0], " " + j);
      assert parts[0] + " " + j == parts[0] + (" " + j);
      assert (" " + j)[1..] == j;
      assert Split(" " + j) == [""] + parts[1..];
      assert parts[0] + "" == parts[0];
      assert parts == [parts[0]] + parts[1..];
    }
  }

  /** A space-free word in front of a text lengthens the text's first field. */
  lemma {:induction false} SplitWord(w: string, t: string)
    requires NoSpace(w)
    ensures Split(w + t) == [w + Split(t)[0]] + Split(t)[1..]
  {
    if w == [] {
      assert w + t == t;
      assert w + Split(t)[0] == Split(t)[0];
      assert Split(t) == [Split(t)[0]] + Split(t)[1..];
    } else {
      SplitWord(w[1..], t);
      assert (w + t)[0] == w[0];
      assert (w + t)[1..] == w[1..] + t;
      var rest := Split(w[1..] + t);
      assert rest[0] == w[1..] + Split(t)[0];
      assert rest[1..] == Split(t)[1..];
      assert [w[0]] + (w[1..] + Split(t)[0]) == w + Split(t)[0];
    }
  }

  /** ArcFieldValidator.getArrayValue: the field at a position, if there. */
  function GetArrayValue(a: seq<string>, i: int): (r: Option<string>)
    ensures r.Some? <==> 0 <= i < |a|
    ensures r.Some? ==> r.value == a[i]
  {
    if 0 <= i < |a| then Some(a[i]) else None
  }

  /** String.trim().length() == 0: nothing but characters up to U+0020. */
  predicate Blank(s: string) { forall i :: 0 <= i < |s| ==> s[i] <= ' ' }

  predicate Absent(s: Option<string>) { s.None? || |s.value| == 0 }

  /** Every diagnostic in the list is about the given field. */
  predicate AllAbout(errors: seq<ArcValidationError>, field: ArcField)
  {
    forall i :: 0 <= i < |errors| ==> errors[i].field == field
  }

  /*
   * Coercions.
   */

  /** parseInteger(intStr, field): an empty or absent text yields nothing and
      no diagnostic; an unparsable one yields INVALID. */
  function ParseInteger(s: Option<string>, field: ArcField): (r: Coerced<int>)
    ensures AllAbout(r.errors, field)
    ensures r.value.Some? ==> !Absent(s) && ParseJavaInt(s.value) == r.value && r.errors == []
    ensures !Absent(s) && ParseJavaInt(s.value).Some? ==> r == Coerced(ParseJavaInt(s.value), [])
    ensures Absent(s) ==> r.value.None? && r.errors == []
    ensures !Absent(s) && ParseJavaInt(s.value).None? ==>
              r.value.None? && r.errors == [ArcValidationError(Invalid, field, s)]
  {
    if !Absent(s) then
      match ParseJavaInt(s.value)
      case Some(v) => Coerced(Some(v), [])
      case None => Coerced(None, [ArcValidationError(Invalid, field, s)])
    else Coerced(None, [])
  }

  /** parseInteger(intStr, field, optional): a mandatory integer that did not
      parse also raises MISSING, so an unparsable text raises INVALID and then
      MISSING, and an empty one MISSING alone. */
  function ParseIntegerOpt(s: Option<string>, field: ArcField, optional: bool): (r: Coerced<int>)
    ensures AllAbout(r.errors, field)
    ensures r.value.Some? ==> !Absent(s) && ParseJavaInt(s.value) == r.value && r.errors == []
    ensures !Absent(s) && ParseJavaInt(s.value).Some? ==> r == Coerced(ParseJavaInt(s.value), [])
    ensures optional && r.value.None? ==>
              r.errors == (if Absent(s) then [] else [ArcValidationError(Invalid, field, s)])
    ensures !optional && Absent(s) ==>
              r.value.None? && r.errors == [ArcValidationError(Missing, field, s)]
    ensures !optional && !Absent(s) && ParseJavaInt(s.value).None? ==>
              r.value.None? &&
              r.errors == [ArcValidationError(Invalid, field, s), ArcValidationError(Missing, field, s)]
  {
    var c := ParseInteger(s, field);
    if c.value.None? && !optional then
      Coerced(None, c.errors + [ArcValidationError(Missing, field, s)])
    else c
  }

  /** parseLong: a mandatory long. Exactly one diagnostic when it fails:
      MISSING for an absent or empty text, INVALID for an unparsable one. */
  function ParseLong(s: Option<string>, field: ArcField): (r: Coerced<int>)
    ensures AllAbout(r.errors, field)
    ensures r.value.Some? ==> !Absent(s) && ParseJavaLong(s.value) == r.value && r.errors == []
    ensures !Absent(s) && ParseJavaLong(s.value).Some? ==> r == Coerced(ParseJavaLong(s.value), [])
    ensures Absent(s) ==> r.value.None? && r.errors == [ArcValidationError(Missing, field, s)]
    ensures !Absent(s) && ParseJavaLong(s.value).None? ==>
              r.value.None? && r.errors == [ArcValidationError(Invalid, field, s)]
  {
    if !Absent(s) then
      match ParseJavaLong(s.value)
      case Some(v) => Coerced(Some(v), [])
      case None => Coerced(None, [ArcValidationError(Invalid, field, s)])
    else Coerced(None, [ArcValidationError(Missing, field, s)])
  }

  /** parseString: the text comes back unchanged; a mandatory one that is
      absent or blank raises MISSING. */
  function ParseString(s: Option<string>, field: ArcField, optional: bool): (r: Coerced<string>)
    ensures AllAbout(r.errors, field)
    ensures r.value == s
    ensures optional ==> r.errors == []
    ensures !optional && s.Some? && !Blank(s.value) ==> r.errors == []
    ensures !optional && (s.None? || Blank(s.value)) ==> r.errors == [ArcValidationError(Missing, field, s)]
  {
    if (s.None? || Blank(s.value)) && !optional then
      Coerced(s, [ArcValidationError(Missing, field, s)])
    else Coerced(s, [])
  }

  /** parseUri, parseIpAddress, parseDate and parseContentType: a mandatory
      field handed to a sub-parser. */
  function ParseWith<T>(s: Option<string>, field: ArcField, parse: string -> Option<T>): (r: Coerced<T>)
    ensures AllAbout(r.errors, field) && |r.errors| <= 1
    ensures r.value.Some? <==> r.errors == []
    ensures !Absent(s) && parse(s.value).Some? ==> r == Coerced(parse(s.value), [])
  {
    if !Absent(s) then
      match parse(s.value)
      case Some(v) => Coerced(Some(v), [])
      case None => Coerced(None, [ArcValidationError(Invalid, field, s)])
    else Coerced(None, [ArcValidationError(Missing, field, s)])
  }

  /** A sub-parsed field raises exactly one diagnostic when it fails (MISSING
      for an absent or empty text, INVALID for one the sub-parser rejects)
      and none when it succeeds. */
  lemma ParseWithOutcome<T>(s: Option<string>, field: ArcField, parse: string -> Option<T>)
    ensures var r := ParseWith(s, field, parse);
            AllAbout(r.errors, field) &&
            (r.value.Some? ==> !Absent(s) && parse(s.value) == r.value && r.errors == []) &&
            (!Absent(s) && parse(s.value).Some? ==> r == Coerced(parse(s.value), [])) &&
            (Absent(s) ==> r.value.None? && r.errors == [ArcValidationError(Missing, field, s)]) &&
            (!Absent(s) && parse(s.value).None? ==>
               r.value.None? && r.errors == [ArcValidationError(Invalid, field, s)])
  {
  }

  /*
   * The whole line.
   */

  /** The fields only a version 2 line carries. */
  datatype Version2Fields = Version2Fields(
    resultCode: Coerced<int>,
    checksum: Coerced<string>,
    location: Coerced<string>,
    offset: Coerced<int>,
    filename: Coerced<string>)

  datatype ParsedLine = ParsedLine(
    fields: seq<string>,
    compliant: bool,
    recUrl: Option<string>,
    recIpAddress: Option<string>,
    recArchiveDate: Option<string>,
    recContentType: Option<string>,
    url: Coerced<Uri>,
    inetAddress: Coerced<seq<byte>>,
    archiveDate: Coerced<int>,
    contentType: Coerced<ContentType>,
    v2: Option<Version2Fields>,
    length: Coerced<int>,
    offsetErrors: seq<ArcValidationError>)

  /** The fields only a version 2 line carries, as diagnostic subjects. */
  predicate Version2Field(f: ArcField)
  {
    f == ResultCodeField || f == ChecksumField || f == LocationField || f == OffsetField || f == FilenameField
  }

  /** Every diagnostic in the list is about a version 2 field. */
  predicate AllVersion2(errors: seq<ArcValidationError>)
  {
    forall i :: 0 <= i < |errors| ==> Version2Field(errors[i].field)
  }

  function Version2Errors(v: Version2Fields): seq<ArcValidationError>
  {
    v.resultCode.errors + v.checksum.errors + v.location.errors + v.offset.errors + v.filename.errors
  }

  function ComplianceErrors(compliant: bool): seq<ArcValidationError>
  {
    if compliant then [] else [ArcValidationError(Invalid, ArcRecordField, Some(NOT_COMPLIANT))]
  }

  /** The diagnostics of a line, in the order parseRecord raises them. */
  function LineErrors(p: ParsedLine): (r: seq<ArcValidationError>)
    ensures !p.compliant ==> |r| > 0 && r[0] == ArcValidationError(Invalid, ArcRecordField, Some(NOT_COMPLIANT))
    ensures |p.offsetErrors| <= |r| && r[|r| - |p.offsetErrors|..] == p.offsetErrors
  {
    ComplianceErrors(p.compliant)
    + p.url.errors + p.inetAddress.errors + p.archiveDate.errors + p.contentType.errors
    + (if p.v2.Some? then Version2Errors(p.v2.value) else [])
    + p.length.errors
    + p.offsetErrors
  }

  /** The consistency check of a declared offset against the record's actual
      start offset; a start offset of 0 or below is never checked. */
  function OffsetErrors(recOffset: Option<int>, startOffset: int): (r: seq<ArcValidationError>)
    ensures AllAbout(r, OffsetField)
  {
    if recOffset.Some? && startOffset > 0 && recOffset.value != startOffset
    then [ArcValidationError(Invalid, OffsetField, Some(FormatDecimal(recOffset.value)))]
    else []
  }

  /** The version 2 coercions: their diagnostics are about version 2 fields,
      and the optional location never raises one. */
  function ParseVersion2(fields: seq<string>): (r: Version2Fields)
    ensures AllVersion2(Version2Errors(r))
    ensures r.location.errors == []
  {
    var v := Version2Fields(
      ParseIntegerOpt(GetArrayValue(fields, AF_IDX_RESULTCODE), ResultCodeField, false),
      ParseString(GetArrayValue(fields, AF_IDX_CHECKSUM), ChecksumField, false),
      ParseString(GetArrayValue(fields, AF_IDX_LOCATION), LocationField, true),
      ParseLong(GetArrayValue(fields, AF_IDX_OFFSET), OffsetField),
      ParseString(GetArrayValue(fields, AF_IDX_FILENAME), FilenameField, false));
    Version2ErrorsTagged(v);
    v
  }

  /** What parseRecord extracts from a (non-null) line. `priorOffset` is the
      record's offset field before the call, which a version 1 line leaves in
      place and which the offset check then reads. */
  function ParseLine(line: string, version: ArcVersion, expectedFieldCount: nat,
                     startOffset: int, priorOffset: Option<int>, parsers: SubParsers): (r: ParsedLine)
    ensures LineTagged(r)
  {
    var fields := Split(line);
    var recUrl := GetArrayValue(fields, AF_IDX_URL);
    var recIpAddress := GetArrayValue(fields, AF_IDX_IPADDRESS);
    var recArchiveDate := GetArrayValue(fields, AF_IDX_ARCHIVEDATE);
    var recContentType := GetArrayValue(fields, AF_IDX_CONTENTTYPE);
    var v2 := if version == Version2 then Some(ParseVersion2(fields)) else None;
    var recOffset := if v2.Some? then v2.value.offset.value else priorOffset;
    ParsedLine(
      fields,
      |fields| == expectedFieldCount,
      recUrl, recIpAddress, recArchiveDate, recContentType,
      ParseWith(recUrl, UrlField, parsers.uri),
      ParseWith(recIpAddress, IpAddressField, parsers.ipAddress),
      ParseWith(recArchiveDate, DateField, parsers.date),
      ParseWith(recContentType, ContentTypeField, parsers.contentType),
      v2,
      ParseLong(GetArrayValue(fields, |fields| - 1), LengthField),
      OffsetErrors(recOffset, startOffset))
  }

  /*
   * Selecting the diagnostics about one field.
   */

  function FieldErrors(errors: seq<ArcValidationError>, field: ArcField): seq<ArcValidationError>
  {
    if errors == [] then []
    else (if errors[0].field == field then [errors[0]] else []) + FieldErrors(errors[1..], field)
  }

  lemma {:induction false} FieldErrorsAppend(a: seq<ArcValidationError>, b: seq<ArcValidationError>, field: ArcField)
    ensures FieldErrors(a + b, field) == FieldErrors(a, field) + FieldErrors(b, field)
  {
    if a != [] {
      var ab := a + b;
      assert ab[0] == a[0] && ab[1..] == a[1..] + b;
      FieldErrorsAppend(a[1..], b, field);
    } else {
      assert a + b == b;
    }
  }

  lemma {:induction false} FieldErrorsOfOneField(errors: seq<ArcValidationError>, f: ArcField, field: ArcField)
    requires AllAbout(errors, f)
    ensures FieldErrors(errors, field) == if f == field then errors else []
  {
    if errors != [] {
      FieldErrorsOfOneField(errors[1..], f, field);
      assert errors == [errors[0]] + errors[1..];
    }
  }

  /** Every coercion's diagnostics name the field it coerced. */
  predicate LineTagged(p: ParsedLine)
  {
    AllAbout(p.url.errors, UrlField) &&
    AllAbout(p.inetAddress.errors, IpAddressField) &&
    AllAbout(p.archiveDate.errors, DateField) &&
    AllAbout(p.contentType.errors, ContentTypeField) &&
    AllAbout(p.length.errors, LengthField) &&
    AllAbout(p.offsetErrors, OffsetField) &&
    (p.v2.Some? ==> AllVersion2(Version2Errors(p.v2.value)))
  }

  /** Diagnostics about another field add nothing to a selection. */
  lemma FieldErrorsSkip(a: seq<ArcValidationError>, b: seq<ArcValidationError>, f: ArcField, field: ArcField)
    requires AllAbout(b, f) && f != field
    ensures FieldErrors(a + b, field) == FieldErrors(a, field)
  {
    FieldErrorsAppend(a, b, field);
    FieldErrorsOfOneField(b, f, field);
  }

  /** Version 2 diagnostics add nothing to a selection of another field. */
  lemma FieldErrorsSkipVersion2(a: seq<ArcValidationError>, b: seq<ArcValidationError>, field: ArcField)
    requires AllVersion2(b) && !Version2Field(field)
    ensures FieldErrors(a + b, field) == FieldErrors(a, field)
  {
    FieldErrorsAppend(a, b, field);
    FieldErrorsNotAmong(b, field);
  }

  /** Selecting one field from the line's diagnostic groups in order: the
      groups about other fields contribute nothing. */
  lemma FieldErrorsOfGroups(c: seq<ArcValidationError>, u: seq<ArcValidationError>, i: seq<ArcValidationError>,
                            d: seq<ArcValidationError>, t: seq<ArcValidationError>, w: seq<ArcValidationError>,
                            l: seq<ArcValidationError>, o: seq<ArcValidationError>, field: ArcField)
    requires AllAbout(u, UrlField) && AllAbout(i, IpAddressField) && AllAbout(d, DateField)
    requires AllAbout(t, ContentTypeField) && AllVersion2(w) && AllAbout(o, OffsetField)
    requires field == ArcRecordField || field == LengthField
    ensures FieldErrors(c + u + i + d + t + w + l + o, field) == FieldErrors(c, field) + FieldErrors(l, field)
  {
    FieldErrorsSkip4(c, u, i, d, t, field);
    FieldErrorsSkipVersion2(c + u + i + d + t, w, field);
    FieldErrorsAppend(c + u + i + d + t + w, l, field);
    FieldErrorsSkip(c + u + i + d + t + w + l, o, OffsetField, field);
  }

  lemma FieldErrorsSkip4(c: seq<ArcValidationError>, u: seq<ArcValidationError>, i: seq<ArcValidationError>,
                         d: seq<ArcValidationError>, t: seq<ArcValidationError>, field: ArcField)
    requires AllAbout(u, UrlField) && AllAbout(i, IpAddressField) && AllAbout(d, DateField)
    requires AllAbout(t, ContentTypeField)
    requires field == ArcRecordField || field == LengthField
    ensures FieldErrors(c + u + i + d + t, field) == FieldErrors(c, field)
  {
    FieldErrorsSkip(c, u, UrlField, field);
    FieldErrorsSkip(c + u, i, IpAddressField, field);
    FieldErrorsSkip(c + u + i, d, DateField, field);
    FieldErrorsSkip(c + u + i + d, t, ContentTypeField, field);
  }

  /** The diagnostics of a line about the record itself: the compliance
      check's alone. */
  lemma LineRecordErrors(p: ParsedLine)
    requires LineTagged(p)
    ensures FieldErrors(LineErrors(p), ArcRecordField) == ComplianceErrors(p.compliant)
  {
    var c := ComplianceErrors(p.compliant);
    FieldErrorsOfGroups(c, p.url.errors, p.inetAddress.errors, p.archiveDate.errors, p.contentType.errors,
                        if p.v2.Some? then Version2Errors(p.v2.value) else [], p.length.errors, p.offsetErrors,
                        ArcRecordField);
    FieldErrorsOfOneField(c, ArcRecordField, ArcRecordField);
    FieldErrorsOfOneField(p.length.errors, LengthField, ArcRecordField);
  }

  /** The diagnostics of a line about the record length: the length
      coercion's alone. */
  lemma LineLengthErrors(p: ParsedLine)
    requires LineTagged(p)
    ensures FieldErrors(LineErrors(p), LengthField) == p.length.errors
  {
    var c := ComplianceErrors(p.compliant);
    FieldErrorsOfGroups(c, p.url.errors, p.inetAddress.errors, p.archiveDate.errors, p.contentType.errors,
                        if p.v2.Some? then Version2Errors(p.v2.value) else [], p.length.errors, p.offsetErrors,
                        LengthField);
    FieldErrorsOfOneField(c, ArcRecordField, LengthField);
    FieldErrorsOfOneField(p.length.errors, LengthField, LengthField);
  }

  lemma {:induction false} FieldErrorsNotAmong(errors: seq<ArcValidationError>, field: ArcField)
    requires !Version2Field(field) && AllVersion2(errors)
    ensures FieldErrors(errors, field) == []
  {
    if errors != [] {
      FieldErrorsNotAmong(errors[1..], field);
    }
  }

  /*
   * Properties of parseRecord on a line.
   */

  /** The fields are compliant iff the line has exactly the expected number
      of fields (spaces plus one); a mismatch raises exactly one INVALID on
      the record, and it is the first diagnostic. */
  lemma ParseLineCompliance(line: string, version: ArcVersion, expectedFieldCount: nat,
                            startOffset: int, priorOffset: Option<int>, parsers: SubParsers)
    ensures var p := ParseLine(line, version, expectedFieldCount, startOffset, priorOffset, parsers);
            (p.compliant <==> SpaceCount(line) + 1 == expectedFieldCount) &&
            FieldErrors(LineErrors(p), ArcRecordField) ==
              (if p.compliant then [] else [ArcValidationError(Invalid, ArcRecordField, Some(NOT_COMPLIANT))]) &&
            (!p.compliant ==> LineErrors(p)[0] == ArcValidationError(Invalid, ArcRecordField, Some(NOT_COMPLIANT)))
  {
    var p := ParseLine(line, version, expectedFieldCount, startOffset, priorOffset, parsers);
    SplitCount(line);
    LineRecordErrors(p);
  }

  /** The last field is always parsed as the mandatory record length:
      an empty one raises exactly one MISSING, a non-numeric one exactly one
      INVALID, a numeric one none. */
  lemma ParseLineLength(line: string, version: ArcVersion, expectedFieldCount: nat,
                        startOffset: int, priorOffset: Option<int>, parsers: SubParsers)
    ensures var p := ParseLine(line, version, expectedFieldCount, startOffset, priorOffset, parsers);
            var last := Split(line)[|Split(line)| - 1];
            p.length.value == (if last == "" then None else ParseJavaLong(last)) &&
            FieldErrors(LineErrors(p), LengthField) ==
              (if last == "" then [ArcValidationError(Missing, LengthField, Some(last))]
               else if ParseJavaLong(last).None? then [ArcValidationError(Invalid, LengthField, Some(last))]
               else [])
  {
    var p := ParseLine(line, version, expectedFieldCount, startOffset, priorOffset, parsers);
    var fields := Split(line);
    var last := fields[|fields| - 1];
    ParseLineLengthField(line, version, expectedFieldCount, startOffset, priorOffset, parsers);
    LengthDiagnostics(p, last);
  }

  /** The record length is coerced from the last field. */
  lemma ParseLineLengthField(line: string, version: ArcVersion, expectedFieldCount: nat,
                             startOffset: int, priorOffset: Option<int>, parsers: SubParsers)
    ensures ParseLine(line, version, expectedFieldCount, startOffset, priorOffset, parsers).length ==
            ParseLong(Some(Split(line)[|Split(line)| - 1]), LengthField)
  {
  }

  /** The length diagnostics of a line whose length field is `last`. */
  lemma LengthDiagnostics(p: ParsedLine, last: string)
    requires LineTagged(p) && p.length == ParseLong(Some(last), LengthField)
    ensures p.length.value == (if last == "" then None else ParseJavaLong(last))
    ensures FieldErrors(LineErrors(p), LengthField) ==
              (if last == "" then [ArcValidationError(Missing, LengthField, Some(last))]
               else if ParseJavaLong(last).None? then [ArcValidationError(Invalid, LengthField, Some(last))]
               else [])
  {
    LineLengthErrors(p);
  }

  /** The version 2 coercions' diagnostics are about version 2 fields. */
  lemma Version2ErrorsTagged(v: Version2Fields)
    requires AllAbout(v.resultCode.errors, ResultCodeField) && AllAbout(v.checksum.errors, ChecksumField)
    requires AllAbout(v.location.errors, LocationField) && AllAbout(v.offset.errors, OffsetField)
    requires AllAbout(v.filename.errors, FilenameField)
    ensures AllVersion2(Version2Errors(v))
  {
  }

  /** Only a version 2 line yields result code, checksum, location, offset
      and filename. */
  lemma ParseLineVersion2Only(line: string, version: ArcVersion, expectedFieldCount: nat,
                              startOffset: int, priorOffset: Option<int>, parsers: SubParsers)
    ensures var p := ParseLine(line, version, expectedFieldCount, startOffset, priorOffset, parsers);
            p.v2.Some? <==> version == Version2
  {
  }

  /** The offset check raises INVALID on the offset field iff an offset is
      known, the start offset is positive, and the two differ; it is the last
      diagnostic of the line. */
  lemma ParseLineOffsetCheck(line: string, version: ArcVersion, expectedFieldCount: nat,
                             startOffset: int, priorOffset: Option<int>, parsers: SubParsers)
    ensures var p := ParseLine(line, version, expectedFieldCount, startOffset, priorOffset, parsers);
            var recOffset := if version == Version2 then p.v2.value.offset.value else priorOffset;
            (p.offsetErrors != [] <==> recOffset.Some? && startOffset > 0 && recOffset.value != startOffset) &&
            (p.offsetErrors != [] ==>
               LineErrors(p)[|LineErrors(p)| - 1] ==
                 ArcValidationError(Invalid, OffsetField, Some(FormatDecimal(recOffset.value)))) &&
            (startOffset <= 0 ==> p.offsetErrors == [])
  {
  }

  /*
   * Worked lines.
   */

  lemma DecimalText1234()
    ensures ParseJavaLong("1234") == Some(1234)
  {
    assert AllDigits("1234");
    assert DecimalValue("1") == 1 by { assert "1"[..0] == ""; }
    assert DecimalValue("12") == 12 by { assert "12"[..1] == "1"; }
    assert DecimalValue("123") == 123 by { assert "123"[..2] == "12"; }
    assert DecimalValue("1234") == 1234 by { assert "1234"[..3] == "123"; }
  }

  /** The version 1 line "http://x.org/ 1.2.3.4 20080430204825 text/html 1234",
      written as its fields joined by single spaces. */
  const VERSION1_FIELDS: seq<string> := ["http://x.org/", "1.2.3.4", "20080430204825", "text/html", "1234"]
  const VERSION1_LINE: string := Join(VERSION1_FIELDS)

  lemma Version1LineFields()
    ensures Split(VERSION1_LINE) == VERSION1_FIELDS
  {
    SplitJoin(VERSION1_FIELDS);
  }

  /** A well-formed version 1 line whose four typed fields the sub-parsers
      accept parses without any diagnostic. */
  lemma Version1LineWithoutDiagnostics(startOffset: int, parsers: SubParsers)
    requires parsers.uri("http://x.org/").Some?
    requires parsers.ipAddress("1.2.3.4").Some?
    requires parsers.date("20080430204825").Some?
    requires parsers.contentType("text/html").Some?
    ensures var p := ParseLine(VERSION1_LINE, Version1, 5, startOffset, None, parsers);
            p.compliant && LineErrors(p) == [] && p.length.value == Some(1234)
  {
    Version1LineFields();
    DecimalText1234();
  }

  lemma DecimalText200And100()
    ensures ParseJavaInt("200") == Some(200)
    ensures ParseJavaLong("100") == Some(100)
    ensures FormatDecimal(100) == "100"
  {
    assert AllDigits("200") && AllDigits("100");
    assert DecimalValue("2") == 2 by { assert "2"[..0] == ""; }
    assert DecimalValue("20") == 20 by { assert "20"[..1] == "2"; }
    assert DecimalValue("200") == 200 by { assert "200"[..2] == "20"; }
    assert DecimalValue("1") == 1 by { assert "1"[..0] == ""; }
    assert DecimalValue("10") == 10 by { assert "10"[..1] == "1"; }
    assert DecimalValue("100") == 100 by { assert "100"[..2] == "10"; }
    assert Digits(100) == "100" by {
      assert Digits(1) == "1";
      assert Digits(10) == "1" + "0";
    }
  }

  /** A version 2 line with an empty checksum token, declaring offset 100:
      "http://x.org/ 1.2.3.4 20080430204825 text/html 200  - 100 x.arc 1234". */
  const VERSION2_FIELDS: seq<string> :=
    ["http://x.org/", "1.2.3.4", "20080430204825", "text/html", "200", "", "-", "100", "x.arc", "1234"]
  const VERSION2_LINE: string := Join(VERSION2_FIELDS)

  lemma Version2LineFields()
    ensures Split(VERSION2_LINE) == VERSION2_FIELDS
  {
    SplitJoin(VERSION2_FIELDS);
  }

  /** The four typed fields of the version 2 line pass their sub-parsers. */
  lemma Version2TypedFields(startOffset: int, parsers: SubParsers)
    requires parsers.uri("http://x.org/").Some?
    requires parsers.ipAddress("1.2.3.4").Some?
    requires parsers.date("20080430204825").Some?
    requires parsers.contentType("text/html").Some?
    ensures var p := ParseLine(VERSION2_LINE, Version2, 10, startOffset, None, parsers);
            p.compliant && p.url.errors == [] && p.inetAddress.errors == [] &&
            p.archiveDate.errors == [] && p.contentType.errors == []
  {
    Version2LineFields();
  }

  /** The declared offset 100 is checked against the start offset. */
  lemma Version2OffsetCheck(startOffset: int, parsers: SubParsers)
    ensures var p := ParseLine(VERSION2_LINE, Version2, 10, startOffset, None, parsers);
            p.offsetErrors == (if startOffset > 0 && startOffset != 100
                               then [ArcValidationError(Invalid, OffsetField, Some("100"))] else [])
  {
    Version2LineFields();
    Version2Coercions();
    DecimalText200And100();
  }

  /** The version 2 line parses every typed field, raises exactly one MISSING
      for the checksum, and one INVALID for the offset exactly when the record
      is known to start at some other positive offset. */
  lemma Version2LineDiagnostics(startOffset: int, parsers: SubParsers)
    requires parsers.uri("http://x.org/").Some?
    requires parsers.ipAddress("1.2.3.4").Some?
    requires parsers.date("20080430204825").Some?
    requires parsers.contentType("text/html").Some?
    ensures var p := ParseLine(VERSION2_LINE, Version2, 10, startOffset, None, parsers);
            p.compliant &&
            p.v2.Some? && p.v2.value.resultCode.value == Some(200) && p.v2.value.offset.value == Some(100) &&
            LineErrors(p) ==
              [ArcValidationError(Missing, ChecksumField, Some(""))] +
              (if startOffset > 0 && startOffset != 100
               then [ArcValidationError(Invalid, OffsetField, Some("100"))] else [])
  {
    var p := ParseLine(VERSION2_LINE, Version2, 10, startOffset, None, parsers);
    Version2TypedFields(startOffset, parsers);
    Version2OffsetCheck(startOffset, parsers);
    Version2Coercions();
    assert p.v2 == Some(ParseVersion2(VERSION2_FIELDS)) by { Version2LineFields(); }
    assert p.length.errors == [] by { Version2LineFields(); DecimalText1234(); }
    CleanVersion2LineErrors(p);
    assert Version2Errors(p.v2.value) == [ArcValidationError(Missing, ChecksumField, Some(""))];
  }

  /** A compliant version 2 line whose typed fields and length parse reports
      only its version 2 field diagnostics and the offset check. */
  lemma CleanVersion2LineErrors(p: ParsedLine)
    requires p.compliant && p.v2.Some?
    requires p.url.errors == [] && p.inetAddress.errors == [] &&
             p.archiveDate.errors == [] && p.contentType.errors == [] && p.length.errors == []
    ensures LineErrors(p) == Version2Errors(p.v2.value) + p.offsetErrors
  {
  }

  lemma Version2Coercions()
    ensures var v := ParseVersion2(VERSION2_FIELDS);
            v.resultCode == Coerced(Some(200), []) &&
            v.offset == Coerced(Some(100), []) &&
            Version2Errors(v) == [ArcValidationError(Missing, ChecksumField, Some(""))]
  {
    DecimalText200And100();
    var f := VERSION2_FIELDS;
    var v := ParseVersion2(f);
    assert v.checksum.errors == [ArcValidationError(Missing, ChecksumField, Some(""))] by {
      assert Blank(f[AF_IDX_CHECKSUM]);
    }
    assert v.filename.errors == [] by {
      assert !Blank(f[AF_IDX_FILENAME]) by { assert f[AF_IDX_FILENAME][0] == 'x'; }
    }
  }
}

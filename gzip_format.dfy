/** The byte layout of a GZip member header and trailer (RFC 1952, version
    4.3 of the GZIP file format specification), and the CRC-32 that
    protects them. */
module GzipFormat {
  import opened Common

  /*
   * CRC-32, computed bit by bit as in section 8 of RFC 1952.
   */

  /** The reversed CRC-32 polynomial of section 8 of RFC 1952. */
  const CRC_POLYNOMIAL: bv32 := 0xEDB8_8320

  /** One shift of the CRC register. */
  function ShiftBit(c: bv32): bv32
  {
    if c & 1 == 1 then CRC_POLYNOMIAL ^ (c >> 1) else c >> 1
  }

  /** `k` shifts of the CRC register. */
  function ShiftBits(c: bv32, k: nat): bv32
    decreases k
  {
    if k == 0 then c else ShiftBits(ShiftBit(c), k - 1)
  }

  const BITS_PER_BYTE: nat := 8

  /** The bits of a non-negative number, as a 32-bit word. */
  function Bits(n: nat): bv32
  {
    if n == 0 then 0 else (Bits(n / 2) << 1) | (if n % 2 == 1 then 1 else 0)
  }

  /** Feeds one byte into the register. */
  function FeedByte(c: bv32, b: byte): bv32
  {
    ShiftBits(c ^ Bits(b), BITS_PER_BYTE)
  }

  /** Feeds a sequence of bytes into a register one at a time, first byte
      first. */
  function Fold<T>(c: T, data: seq<byte>, step: (T, byte) -> T): T
  {
    if data == [] then c else step(Fold(c, data[..|data| - 1], step), data[|data| - 1])
  }

  lemma {:induction false} FoldAppend<T>(c: T, a: seq<byte>, b: seq<byte>, step: (T, byte) -> T)
    ensures Fold(c, a + b, step) == Fold(Fold(c, a, step), b, step)
  {
    if b != [] {
      var ab := a + b;
      assert ab[..|ab| - 1] == a + b[..|b| - 1];
      assert ab[|ab| - 1] == b[|b| - 1];
      FoldAppend(c, a, b[..|b| - 1], step);
    } else {
      assert a + b == a;
    }
  }

  /** update_crc of section 8 of RFC 1952, the value of java.util.zip.CRC32
      after update(data) when it held `crc` before. */
  function UpdateCrc(crc: bv32, data: seq<byte>): bv32
  {
    Fold(crc ^ 0xFFFF_FFFF, data, FeedByte) ^ 0xFFFF_FFFF
  }

  /** The CRC-32 of a byte sequence: the value after reset and update. */
  function Crc32(data: seq<byte>): (r: bv32)
    ensures |data| == 0 ==> r == 0
  {
    UpdateCrc(0, data)
  }

  lemma XorTwice(x: bv32)
    ensures x ^ 0xFFFF_FFFF ^ 0xFFFF_FFFF == x
  {
  }

  /** Updating with two pieces in turn is updating with their
      concatenation: a running CRC covers exactly what was fed to it. */
  lemma UpdateCrcAppend(crc: bv32, a: seq<byte>, b: seq<byte>)
    ensures UpdateCrc(UpdateCrc(crc, a), b) == UpdateCrc(crc, a + b)
  {
    var x := Fold(crc ^ 0xFFFF_FFFF, a, FeedByte);
    assert UpdateCrc(crc, a) ^ 0xFFFF_FFFF == x by {
      XorTwice(x);
    }
    FoldAppend(crc ^ 0xFFFF_FFFF, a, b, FeedByte);
  }

  /** Updating with nothing leaves the value as it was. */
  lemma UpdateCrcEmpty(crc: bv32)
    ensures UpdateCrc(crc, []) == crc
  {
  }

  /*
   * Little-endian integers. A Java `(byte)((x >> 8 * k) & 255)` is the k-th
   * octet of the two's-complement value, which is (x / 256^k) mod 256 for
   * every integer x, negative ones included.
   */

  function Le16(x: int): (r: seq<byte>)
    ensures |r| == 2
  {
    [x % 256, (x / 256) % 256]
  }

  function Le32(x: int): (r: seq<byte>)
    ensures |r| == 4
  {
    [x % 256, (x / 0x100) % 256, (x / 0x1_0000) % 256, (x / 0x100_0000) % 256]
  }

  function ReadLe16(s: seq<byte>): nat
    requires |s| >= 2
  {
    s[0] as int + 256 * s[1] as int
  }

  function ReadLe32(s: seq<byte>): nat
    requires |s| >= 4
  {
    s[0] as int + 0x100 * s[1] as int + 0x1_0000 * s[2] as int + 0x100_0000 * s[3] as int
  }

  /** Reading back two octets gives the low 16 bits of what was written. */
  lemma Le16RoundTrip(x: int)
    ensures ReadLe16(Le16(x)) == x % 0x1_0000
  {
    var q := x / 256;
    assert x == 256 * q + x % 256;
    assert q == 256 * (q / 256) + q % 256;
    assert x / 0x1_0000 == q / 256;
  }

  /** The same, with anything following the two octets. */
  lemma ReadLe16Prefix(x: int, rest: seq<byte>)
    requires 0 <= x < 0x1_0000
    ensures ReadLe16(Le16(x) + rest) == x
  {
    Le16RoundTrip(x);
    var t := Le16(x) + rest;
    assert t[0] == Le16(x)[0] && t[1] == Le16(x)[1];
  }

  /** Reading back four octets gives the low 32 bits of what was written. */
  lemma Le32RoundTrip(x: int)
    ensures ReadLe32(Le32(x)) == x % 0x1_0000_0000
  {
    var q1 := x / 0x100;
    var q2 := x / 0x1_0000;
    var q3 := x / 0x100_0000;
    assert q2 == q1 / 0x100;
    assert q3 == q2 / 0x100;
    assert x == 0x100 * q1 + x % 0x100;
    assert q1 == 0x100 * q2 + q1 % 0x100;
    assert q2 == 0x100 * q3 + q2 % 0x100;
    assert q3 == 0x100 * (q3 / 0x100) + q3 % 0x100;
    assert x / 0x1_0000_0000 == q3 / 0x100;
  }

  /*
   * Header flags (FLG, section 2.3.1 of RFC 1952).
   */

  const FLG_FTEXT: bv8 := 1
  const FLG_FHCRC: bv8 := 2
  const FLG_FEXTRA: bv8 := 4
  const FLG_FNAME: bv8 := 8
  const FLG_FCOMMENT: bv8 := 16

  /** The ID1 ID2 magic number 0x1f 0x8b, read little-endian. */
  const GZIP_MAGIC: int := 0x8B1F
  /** CM = 8 denotes the deflate compression method. */
  const CM_DEFLATE: int := 8

  /** `(flg & FLAG) == FLAG`. */
  predicate HasFlag(flg: bv8, flag: bv8)
  {
    flg & flag == flag
  }

  /** String.getBytes("ISO-8859-1"): characters beyond U+00FF, which have
      no Latin-1 code, become '?'. */
  function Latin1(s: string): (r: seq<byte>)
    ensures |r| == |s|
    ensures forall i :: 0 <= i < |s| ==> r[i] == (if s[i] as int < 256 then s[i] as int else '?' as int)
  {
    if s == [] then []
    else Latin1(s[..|s| - 1]) + [if s[|s| - 1] as int < 256 then s[|s| - 1] as int else '?' as int]
  }

  /*
   * Member header and trailer.
   */

  /** The fields of a member header as they are put on the wire; the name and
      the comment are already encoded. */
  datatype HeaderFields = HeaderFields(magic: int, cm: int, flg: bv8, mtime: int, xfl: int, os: int,
                                       extra: Option<seq<byte>>, name: Option<seq<byte>>,
                                       comment: Option<seq<byte>>)

  /** Every optional section whose flag is set has its data. */
  predicate SectionsPresent(h: HeaderFields)
  {
    (HasFlag(h.flg, FLG_FEXTRA) ==> h.extra.Some?) &&
    (HasFlag(h.flg, FLG_FNAME) ==> h.name.Some?) &&
    (HasFlag(h.flg, FLG_FCOMMENT) ==> h.comment.Some?)
  }

  /** The 10 fixed octets: ID1 ID2 (magic), CM, FLG, MTIME, XFL, OS. */
  function FixedHeader(h: HeaderFields): (r: seq<byte>)
    ensures |r| == 10
  {
    Le16(h.magic) + [h.cm % 256, h.flg as int] + Le32(h.mtime) + [h.xfl % 256, h.os % 256]
  }

  /** XLEN and the extra field, when FEXTRA is set. */
  function ExtraSection(h: HeaderFields): seq<byte>
    requires SectionsPresent(h)
  {
    if HasFlag(h.flg, FLG_FEXTRA) then Le16(|h.extra.value|) + h.extra.value else []
  }

  /** The zero-terminated file name, when FNAME is set. */
  function NameSection(h: HeaderFields): seq<byte>
    requires SectionsPresent(h)
  {
    if HasFlag(h.flg, FLG_FNAME) then h.name.value + [0] else []
  }

  /** The zero-terminated comment, when FCOMMENT is set. */
  function CommentSection(h: HeaderFields): seq<byte>
    requires SectionsPresent(h)
  {
    if HasFlag(h.flg, FLG_FCOMMENT) then h.comment.value + [0] else []
  }

  /** Every header octet that precedes the CRC16. */
  function HeaderPrefix(h: HeaderFields): seq<byte>
    requires SectionsPresent(h)
  {
    FixedHeader(h) + ExtraSection(h) + NameSection(h) + CommentSection(h)
  }

  /** The low 16 bits of a CRC-32 value, as a number. */
  function Low16(crc: bv32): (r: int)
    ensures 0 <= r < 0x1_0000
  {
    crc as int % 0x1_0000
  }

  /** CRC16: the two least significant octets of the CRC-32 of all the
      header octets before it. */
  function HeaderCrc16(h: HeaderFields): (r: int)
    requires SectionsPresent(h)
    ensures 0 <= r < 0x1_0000
  {
    Low16(Crc32(HeaderPrefix(h)))
  }

  /** The member header of section 2.3 of RFC 1952. */
  function EncodeHeader(h: HeaderFields): seq<byte>
    requires SectionsPresent(h)
  {
    HeaderPrefix(h) + (if HasFlag(h.flg, FLG_FHCRC) then Le16(HeaderCrc16(h)) else [])
  }

  /** The member trailer: CRC32 then ISIZE, four octets each. */
  function EncodeTrailer(crc32: int, isize: int): (r: seq<byte>)
    ensures |r| == 8
  {
    Le32(crc32) + Le32(isize)
  }

  /** The header is 10 octets, plus each optional section that is flagged. */
  lemma {:induction false} EncodeHeaderLength(h: HeaderFields)
    requires SectionsPresent(h)
    ensures |EncodeHeader(h)| ==
              10 +
              (if HasFlag(h.flg, FLG_FEXTRA) then 2 + |h.extra.value| else 0) +
              (if HasFlag(h.flg, FLG_FNAME) then |h.name.value| + 1 else 0) +
              (if HasFlag(h.flg, FLG_FCOMMENT) then |h.comment.value| + 1 else 0) +
              (if HasFlag(h.flg, FLG_FHCRC) then 2 else 0)
    ensures EncodeHeader(h)[..10] == FixedHeader(h)
  {
    assert HeaderPrefix(h) == FixedHeader(h) + (ExtraSection(h) + NameSection(h) + CommentSection(h));
  }

  /** The trailer is 8 octets holding the low 32 bits of both values. */
  lemma TrailerRoundTrip(crc32: int, isize: int)
    ensures |EncodeTrailer(crc32, isize)| == 8
    ensures ReadLe32(EncodeTrailer(crc32, isize)) == crc32 % 0x1_0000_0000
    ensures ReadLe32(EncodeTrailer(crc32, isize)[4..]) == isize % 0x1_0000_0000
  {
    Le32RoundTrip(crc32);
    Le32RoundTrip(isize);
    assert EncodeTrailer(crc32, isize)[4..] == Le32(isize);
  }

  /*
   * An independent reader of the header, used to state what the writer
   * produces.
   */

  /** The position of the first zero octet, if there is one. */
  function FirstZero(s: seq<byte>): (r: Option<nat>)
    ensures r.Some? ==> r.value < |s|
  {
    if s == [] then None
    else if s[0] == 0 then Some(0)
    else match FirstZero(s[1..])
         case None => None
         case Some(k) => Some(k + 1)
  }

  /** Reads a zero-terminated string when `present`; yields it and the
      number of octets it took, terminator included. */
  function ReadZeroTerminated(s: seq<byte>, present: bool): (r: Option<(Option<seq<byte>>, nat)>)
    ensures r.Some? ==> r.value.1 <= |s|
  {
    if !present then Some((None, 0))
    else match FirstZero(s)
         case None => None
         case Some(k) => Some((Some(s[..k]), k + 1))
  }

  /** Reads XLEN and the extra field when `present`. */
  function ReadExtra(s: seq<byte>, present: bool): (r: Option<(Option<seq<byte>>, nat)>)
    ensures r.Some? ==> r.value.1 <= |s|
  {
    if !present then Some((None, 0))
    else if |s| < 2 || |s| - 2 < ReadLe16(s) then None
    else Some((Some(s[2..2 + ReadLe16(s)]), 2 + ReadLe16(s)))
  }

  /** The optional sections of a header and the octets they took. */
  datatype Sections = Sections(extra: Option<seq<byte>>, name: Option<seq<byte>>,
                               comment: Option<seq<byte>>, length: nat)

  /** Reads the optional sections that `flg` announces, in their order. */
  function ReadSections(s: seq<byte>, flg: bv8): (r: Option<Sections>)
    ensures r.Some? ==> r.value.length <= |s|
  {
    var r1 := ReadExtra(s, HasFlag(flg, FLG_FEXTRA));
    if r1.None? then None
    else
      var n1 := r1.value.1;
      var r2 := ReadZeroTerminated(s[n1..], HasFlag(flg, FLG_FNAME));
      if r2.None? then None
      else
        var n2 := r2.value.1;
        var r3 := ReadZeroTerminated(s[n1 + n2..], HasFlag(flg, FLG_FCOMMENT));
        if r3.None? then None
        else Some(Sections(r1.value.0, r2.value.0, r3.value.0, n1 + n2 + r3.value.1))
  }

  /** A header as read: its fields, the CRC16 it carries when FHCRC is
      set, and the number of octets it took. */
  datatype DecodedHeader = DecodedHeader(fields: HeaderFields, crc16: Option<int>, length: nat)

  /** Reads a member header from the start of `s`, or None when it is cut
      short. The fields come back as octet values; the CRC16 comes back as
      stored, for the reader to compare (a mismatch is an error flag of the
      entry, not a failure to read). */
  function DecodeHeader(s: seq<byte>): (r: Option<DecodedHeader>)
    ensures r.Some? ==> 10 <= r.value.length <= |s|
  {
    if |s| < 10 then None
    else
      var flg := s[3] as bv8;
      match ReadSections(s[10..], flg)
      case None => None
      case Some(sec) =>
        var p := 10 + sec.length;
        var h := HeaderFields(ReadLe16(s), s[2], flg, ReadLe32(s[4..]), s[8], s[9],
                              sec.extra, sec.name, sec.comment);
        if !HasFlag(flg, FLG_FHCRC) then Some(DecodedHeader(h, None, p))
        else if |s| - p < 2 then None
        else Some(DecodedHeader(h, Some(ReadLe16(s[p..])), p + 2))
  }

  /** The check of a header's CRC16: when one is present, it is the low half
      of the CRC-32 of all the octets of the header before it. */
  predicate HeaderCrcMatches(s: seq<byte>, d: DecodedHeader)
  {
    d.crc16.Some? ==>
      2 <= d.length <= |s| && d.crc16.value == Low16(Crc32(s[..d.length - 2]))
  }

  /** A header whose values fit their fields and whose optional data are
      present exactly when flagged, with no zero inside the name or the
      comment: what a reader gets back unchanged. */
  predicate Representable(h: HeaderFields)
  {
    0 <= h.magic < 0x1_0000 && 0 <= h.cm < 256 && 0 <= h.mtime < 0x1_0000_0000 &&
    0 <= h.xfl < 256 && 0 <= h.os < 256 &&
    (HasFlag(h.flg, FLG_FEXTRA) <==> h.extra.Some?) &&
    (HasFlag(h.flg, FLG_FNAME) <==> h.name.Some?) &&
    (HasFlag(h.flg, FLG_FCOMMENT) <==> h.comment.Some?) &&
    (h.extra.Some? ==> |h.extra.value| < 0x1_0000) &&
    (h.name.Some? ==> forall i :: 0 <= i < |h.name.value| ==> h.name.value[i] != 0) &&
    (h.comment.Some? ==> forall i :: 0 <= i < |h.comment.value| ==> h.comment.value[i] != 0)
  }

  lemma {:induction false} FirstZeroAfter(v: seq<byte>, rest: seq<byte>)
    requires forall i :: 0 <= i < |v| ==> v[i] != 0
    ensures FirstZero(v + [0] + rest) == Some(|v|)
  {
    if v != [] {
      assert (v + [0] + rest)[1..] == v[1..] + [0] + rest;
      FirstZeroAfter(v[1..], rest);
    }
  }

  lemma ReadZeroTerminatedString(v: seq<byte>, rest: seq<byte>)
    requires forall i :: 0 <= i < |v| ==> v[i] != 0
    ensures ReadZeroTerminated(v + [0] + rest, true) == Some((Some(v), |v| + 1))
  {
    var s := v + [0] + rest;
    FirstZeroAfter(v, rest);
    assert s[..|v|] == v;
  }

  lemma ReadExtraField(e: seq<byte>, rest: seq<byte>)
    requires |e| < 0x1_0000
    ensures ReadExtra(Le16(|e|) + e + rest, true) == Some((Some(e), 2 + |e|))
  {
    var s := Le16(|e|) + e + rest;
    Le16RoundTrip(|e|);
    assert ReadLe16(s) == |e|;
    assert s[2..2 + |e|] == e;
  }

  /** The fixed part reads back as written. */
  lemma DecodeFixed(h: HeaderFields, s: seq<byte>)
    requires Representable(h)
    requires |s| >= 10 && s[..10] == FixedHeader(h)
    ensures ReadLe16(s) == h.magic && s[2] == h.cm && s[3] as bv8 == h.flg
    ensures ReadLe32(s[4..]) == h.mtime && s[8] == h.xfl && s[9] == h.os
  {
    Le16RoundTrip(h.magic);
    Le32RoundTrip(h.mtime);
    assert s[..2] == Le16(h.magic);
    assert s[4..8] == Le32(h.mtime);
    assert s[4..][..4] == Le32(h.mtime);
  }

  lemma ReadExtraSection(h: HeaderFields, t: seq<byte>)
    requires Representable(h)
    ensures SectionsPresent(h)
    ensures ReadExtra(ExtraSection(h) + t, HasFlag(h.flg, FLG_FEXTRA)) == Some((h.extra, |ExtraSection(h)|))
  {
    if HasFlag(h.flg, FLG_FEXTRA) {
      ReadExtraField(h.extra.value, t);
    }
  }

  lemma ReadNameSection(h: HeaderFields, t: seq<byte>)
    requires Representable(h)
    ensures SectionsPresent(h)
    ensures ReadZeroTerminated(NameSection(h) + t, HasFlag(h.flg, FLG_FNAME)) == Some((h.name, |NameSection(h)|))
  {
    if HasFlag(h.flg, FLG_FNAME) {
      ReadZeroTerminatedString(h.name.value, t);
    }
  }

  lemma ReadCommentSection(h: HeaderFields, t: seq<byte>)
    requires Representable(h)
    ensures SectionsPresent(h)
    ensures ReadZeroTerminated(CommentSection(h) + t, HasFlag(h.flg, FLG_FCOMMENT)) == Some((h.comment, |CommentSection(h)|))
  {
    if HasFlag(h.flg, FLG_FCOMMENT) {
      ReadZeroTerminatedString(h.comment.value, t);
    }
  }

  /** Reading sections laid end to end: each reader starts where the one
      before it stopped. */
  lemma ReadSectionsSplit(s: seq<byte>, flg: bv8, extra: Option<seq<byte>>, n1: nat,
                          name: Option<seq<byte>>, n2: nat, comment: Option<seq<byte>>, n3: nat)
    requires ReadExtra(s, HasFlag(flg, FLG_FEXTRA)) == Some((extra, n1))
    requires n1 + n2 <= |s|
    requires ReadZeroTerminated(s[n1..], HasFlag(flg, FLG_FNAME)) == Some((name, n2))
    requires ReadZeroTerminated(s[n1 + n2..], HasFlag(flg, FLG_FCOMMENT)) == Some((comment, n3))
    ensures ReadSections(s, flg) == Some(Sections(extra, name, comment, n1 + n2 + n3))
  {
  }

  lemma DropSections<T>(a: seq<T>, b: seq<T>, c: seq<T>, d: seq<T>)
    ensures (a + b + c + d)[|a|..] == b + (c + d)
    ensures (a + b + c + d)[|a| + |b|..] == c + d
  {
    assert a + b + c + d == a + (b + (c + d));
  }

  /** The optional sections read back as written. */
  lemma ReadSectionsOf(h: HeaderFields, rest: seq<byte>)
    requires Representable(h)
    ensures SectionsPresent(h)
    ensures var ex, nm, cm := ExtraSection(h), NameSection(h), CommentSection(h);
            ReadSections(ex + nm + cm + rest, h.flg) == Some(Sections(h.extra, h.name, h.comment, |ex| + |nm| + |cm|))
  {
    var ex, nm, cm := ExtraSection(h), NameSection(h), CommentSection(h);
    var t := ex + nm + cm + rest;
    AppendAssoc(ex, nm, cm + rest);
    AppendAssoc(ex + nm, cm, rest);
    assert t == ex + (nm + (cm + rest));
    ReadExtraSection(h, nm + (cm + rest));
    DropSections(ex, nm, cm, rest);
    ReadNameSection(h, cm + rest);
    ReadCommentSection(h, rest);
    ReadSectionsSplit(t, h.flg, h.extra, |ex|, h.name, |nm|, h.comment, |cm|);
  }

  /** How a header is read once its fixed part and its sections are known. */
  lemma DecodeHeaderSplit(s: seq<byte>, h: HeaderFields, p: nat, crc16: Option<int>, n: nat)
    requires |s| >= 10 && ReadLe16(s) == h.magic && s[2] == h.cm && s[3] as bv8 == h.flg
    requires ReadLe32(s[4..]) == h.mtime && s[8] == h.xfl && s[9] == h.os
    requires p >= 10 && ReadSections(s[10..], h.flg) == Some(Sections(h.extra, h.name, h.comment, p - 10))
    requires HasFlag(h.flg, FLG_FHCRC) ==> p + 2 <= |s| && crc16 == Some(ReadLe16(s[p..]))
    requires !HasFlag(h.flg, FLG_FHCRC) ==> crc16 == None
    requires n == p + (if HasFlag(h.flg, FLG_FHCRC) then 2 else 0)
    ensures DecodeHeader(s) == Some(DecodedHeader(h, crc16, n))
  {
  }

  lemma HeaderParts<T>(a: seq<T>, b: seq<T>, c: seq<T>, d: seq<T>, e: seq<T>, f: seq<T>)
    ensures var s := a + b + c + d + e + f;
            var p := |a| + |b| + |c| + |d|;
            s[..|a|] == a && s[|a|..] == b + c + d + (e + f) && s[..p] == a + b + c + d && s[p..] == e + f
  {
    var s := a + b + c + d + e + f;
    assert s == a + (b + c + d + (e + f));
    assert s == (a + b + c + d) + (e + f);
  }

  /** Where the parts of an encoded header sit in it. */
  lemma EncodeHeaderLayout(h: HeaderFields, rest: seq<byte>)
    requires SectionsPresent(h)
    ensures var s, p := EncodeHeader(h) + rest, 10 + |ExtraSection(h)| + |NameSection(h)| + |CommentSection(h)|;
            var crc := if HasFlag(h.flg, FLG_FHCRC) then Le16(HeaderCrc16(h)) else [];
            p <= |s| && s[..10] == FixedHeader(h) &&
            s[10..] == ExtraSection(h) + NameSection(h) + CommentSection(h) + (crc + rest) &&
            s[..p] == HeaderPrefix(h) && s[p..] == crc + rest &&
            |EncodeHeader(h)| == p + |crc|
  {
    var fx, ex, nm, cm := FixedHeader(h), ExtraSection(h), NameSection(h), CommentSection(h);
    var crc := if HasFlag(h.flg, FLG_FHCRC) then Le16(HeaderCrc16(h)) else [];
    assert EncodeHeader(h) + rest == fx + ex + nm + cm + crc + rest;
    HeaderParts(fx, ex, nm, cm, crc, rest);
  }

  /** The fixed fields of an encoded header read back. */
  lemma DecodeFixedOfEncoded(h: HeaderFields, rest: seq<byte>)
    requires Representable(h)
    ensures SectionsPresent(h)
    ensures var s := EncodeHeader(h) + rest;
            |s| >= 10 && ReadLe16(s) == h.magic && s[2] == h.cm && s[3] as bv8 == h.flg &&
            ReadLe32(s[4..]) == h.mtime && s[8] == h.xfl && s[9] == h.os
  {
    EncodeHeaderLayout(h, rest);
    DecodeFixed(h, EncodeHeader(h) + rest);
  }

  /** The optional sections of an encoded header read back. */
  lemma ReadSectionsOfEncoded(h: HeaderFields, rest: seq<byte>)
    requires Representable(h)
    ensures SectionsPresent(h)
    ensures var s := EncodeHeader(h) + rest;
            |s| >= 10 &&
            ReadSections(s[10..], h.flg) ==
              Some(Sections(h.extra, h.name, h.comment,
                            |ExtraSection(h)| + |NameSection(h)| + |CommentSection(h)|))
  {
    var crc := if HasFlag(h.flg, FLG_FHCRC) then Le16(HeaderCrc16(h)) else [];
    EncodeHeaderLayout(h, rest);
    ReadSectionsOf(h, crc + rest);
  }

  /** An encoded header ends with its CRC16 when FHCRC is set. */
  lemma CrcFieldOfEncoded(h: HeaderFields, rest: seq<byte>)
    requires SectionsPresent(h)
    ensures var s, p := EncodeHeader(h) + rest, 10 + |ExtraSection(h)| + |NameSection(h)| + |CommentSection(h)|;
            |EncodeHeader(h)| == p + (if HasFlag(h.flg, FLG_FHCRC) then 2 else 0) &&
            (HasFlag(h.flg, FLG_FHCRC) ==> p + 2 <= |s| && ReadLe16(s[p..]) == HeaderCrc16(h))
  {
    var s, p := EncodeHeader(h) + rest, 10 + |ExtraSection(h)| + |NameSection(h)| + |CommentSection(h)|;
    EncodeHeaderLayout(h, rest);
    if HasFlag(h.flg, FLG_FHCRC) {
      assert s[p..] == Le16(HeaderCrc16(h)) + rest;
      ReadLe16Prefix(HeaderCrc16(h), rest);
    }
  }

  /** The facts about an encoded header that its reading takes. */
  lemma EncodedParts(h: HeaderFields, rest: seq<byte>, s: seq<byte>, p: nat, crc16: Option<int>)
    requires Representable(h)
    requires s == EncodeHeader(h) + rest
    requires p == 10 + |ExtraSection(h)| + |NameSection(h)| + |CommentSection(h)|
    requires crc16 == if HasFlag(h.flg, FLG_FHCRC) then Some(HeaderCrc16(h)) else None
    ensures |s| >= 10 && ReadLe16(s) == h.magic && s[2] == h.cm && s[3] as bv8 == h.flg
    ensures ReadLe32(s[4..]) == h.mtime && s[8] == h.xfl && s[9] == h.os
    ensures p >= 10 && ReadSections(s[10..], h.flg) == Some(Sections(h.extra, h.name, h.comment, p - 10))
    ensures HasFlag(h.flg, FLG_FHCRC) ==> p + 2 <= |s| && crc16 == Some(ReadLe16(s[p..]))
    ensures !HasFlag(h.flg, FLG_FHCRC) ==> crc16 == None
    ensures |EncodeHeader(h)| == p + (if HasFlag(h.flg, FLG_FHCRC) then 2 else 0)
  {
    DecodeFixedOfEncoded(h, rest);
    ReadSectionsOfEncoded(h, rest);
    CrcFieldOfEncoded(h, rest);
  }

  /** Reading back what the writer emits gives the header, the CRC16 it
      computed, and the exact length, whatever follows it. */
  lemma {:induction false} DecodeEncodeHeader(h: HeaderFields, rest: seq<byte>)
    requires Representable(h)
    ensures SectionsPresent(h)
    ensures DecodeHeader(EncodeHeader(h) + rest) ==
              Some(DecodedHeader(h, if HasFlag(h.flg, FLG_FHCRC) then Some(HeaderCrc16(h)) else None,
                                 |EncodeHeader(h)|))
  {
    var s, p := EncodeHeader(h) + rest, 10 + |ExtraSection(h)| + |NameSection(h)| + |CommentSection(h)|;
    var crc16 := if HasFlag(h.flg, FLG_FHCRC) then Some(HeaderCrc16(h)) else None;
    EncodedParts(h, rest, s, p, crc16);
    DecodeHeaderSplit(s, h, p, crc16, |EncodeHeader(h)|);
  }

  /** A reader that checks the CRC16 of what the writer emits finds it
      correct. */
  lemma EncodedHeaderCrcMatches(h: HeaderFields, rest: seq<byte>)
    requires SectionsPresent(h)
    ensures HeaderCrcMatches(EncodeHeader(h) + rest,
                             DecodedHeader(h, if HasFlag(h.flg, FLG_FHCRC) then Some(HeaderCrc16(h)) else None,
                                           |EncodeHeader(h)|))
  {
    EncodeHeaderLayout(h, rest);
    if HasFlag(h.flg, FLG_FHCRC) {
      assert (EncodeHeader(h) + rest)[..|EncodeHeader(h)| - 2] == HeaderPrefix(h);
    }
  }
}

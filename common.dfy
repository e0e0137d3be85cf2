/** Shared vocabulary: bytes, optional values, Java integer arithmetic,
    decimal number text, and the byte source that the stream wrappers read. */
module Common {

  /** An unsigned octet as it travels through Java streams (0..255). */
  type byte = b: int | 0 <= b < 256

  datatype Option<+T> = None | Some(value: T)

  /** Failure values standing for the exceptions the modelled code throws. */
  datatype Failure = UnsupportedOperation | DataFormat | IllegalArgument

  datatype Result<+T> = Ok(value: T) | Err(failure: Failure)

  function Min(a: int, b: int): int { if a <= b then a else b }

  lemma AppendAssoc<T>(a: seq<T>, b: seq<T>, c: seq<T>)
    ensures a + b + c == a + (b + c)
  {
  }

  /*
   * Java integer types.
   */

  const INT_MIN: int := -0x8000_0000
  const INT_MAX: int := 0x7FFF_FFFF
  const LONG_MIN: int := -0x8000_0000_0000_0000
  const LONG_MAX: int := 0x7FFF_FFFF_FFFF_FFFF

  predicate IsLong(x: int) { LONG_MIN <= x <= LONG_MAX }

  /** The two's-complement narrowing of a Java `(int)` cast. */
  function ToInt32(x: int): (r: int)
    ensures INT_MIN <= r <= INT_MAX
    ensures (r - x) % 0x1_0000_0000 == 0
    ensures INT_MIN <= x <= INT_MAX ==> r == x
  {
    (x - INT_MIN) % 0x1_0000_0000 + INT_MIN
  }

  /** The wrap-around of Java `long` arithmetic. */
  function ToInt64(x: int): (r: int)
    ensures IsLong(r)
    ensures (r - x) % 0x1_0000_0000_0000_0000 == 0
    ensures IsLong(x) ==> r == x
  {
    (x - LONG_MIN) % 0x1_0000_0000_0000_0000 + LONG_MIN
  }

  /** Java's `/`, which truncates toward zero (Dafny's rounds toward minus
      infinity for a positive divisor). */
  function JavaDiv(a: int, d: int): (r: int)
    requires d > 0
    ensures a >= 0 ==> 0 <= a - d * r < d
    ensures a < 0 ==> -d < a - d * r <= 0
  {
    if a >= 0 then a / d else -((-a) / d)
  }

  /*
   * Decimal text, as accepted by Integer.valueOf / Long.valueOf and produced
   * by Long.toString.
   */

  predicate IsDigit(c: char) { '0' <= c <= '9' }

  function DigitValue(c: char): nat requires IsDigit(c) { c as int - '0' as int }

  function DigitChar(d: nat): (c: char)
    requires d < 10
    ensures IsDigit(c) && DigitValue(c) == d
  {
    ('0' as int + d) as char
  }

  predicate AllDigits(s: string) { forall i :: 0 <= i < |s| ==> IsDigit(s[i]) }

  /** The value of a string of decimal digits, most significant first. */
  function DecimalValue(s: string): nat
    requires AllDigits(s)
  {
    if s == [] then 0 else 10 * DecimalValue(s[..|s| - 1]) + DigitValue(s[|s| - 1])
  }

  /** The shortest decimal text of a natural number. */
  function Digits(n: nat): (s: string)
    ensures |s| > 0 && AllDigits(s)
    ensures DecimalValue(s) == n
  {
    if n < 10 then [DigitChar(n)]
    else
      var prefix := Digits(n / 10);
      var s := prefix + [DigitChar(n % 10)];
      assert s[..|s| - 1] == prefix;
      s
  }

  /** Long.toString. */
  function FormatDecimal(n: int): (s: string)
    ensures |s| > 0
  {
    if n < 0 then "-" + Digits(-n) else Digits(n)
  }

  /** The optionally signed digit string of Integer.parseInt and
      Long.parseLong, range-checked to [lo, hi]; None where Java throws a
      NumberFormatException. */
  function ParseDecimal(s: string, lo: int, hi: int): (r: Option<int>)
    ensures r.Some? ==> lo <= r.value <= hi
    ensures r.Some? ==> |s| > 0 && (IsDigit(s[0]) || s[0] == '-' || s[0] == '+')
  {
    if |s| == 0 then None
    else
      var negative := s[0] == '-';
      var body := if s[0] == '-' || s[0] == '+' then s[1..] else s;
      if |body| == 0 || !AllDigits(body) then None
      else
        var v: int := if negative then -(DecimalValue(body) as int) else DecimalValue(body);
        if lo <= v <= hi then Some(v) else None
  }

  /** Integer.valueOf. */
  function ParseJavaInt(s: string): (r: Option<int>)
    ensures r.Some? ==> INT_MIN <= r.value <= INT_MAX
    ensures s == [] ==> r.None?
  {
    ParseDecimal(s, INT_MIN, INT_MAX)
  }

  /** Long.valueOf. */
  function ParseJavaLong(s: string): (r: Option<int>)
    ensures r.Some? ==> LONG_MIN <= r.value <= LONG_MAX
    ensures s == [] ==> r.None?
  {
    ParseDecimal(s, LONG_MIN, LONG_MAX)
  }

  /** Printing a number and reading it back gives the number whenever it is
      in range. */
  lemma ParseFormatDecimal(n: int, lo: int, hi: int)
    requires lo <= n <= hi
    ensures ParseDecimal(FormatDecimal(n), lo, hi) == Some(n)
  {
    var s := FormatDecimal(n);
    if n < 0 {
      assert s[1..] == Digits(-n);
    }
  }

  /** A text that is empty, or not a number, is never accepted. */
  lemma ParseDecimalRejectsNonNumbers(s: string, lo: int, hi: int)
    requires |s| == 0 || (!IsDigit(s[0]) && s[0] != '-' && s[0] != '+')
    ensures ParseDecimal(s, lo, hi) == None
  {
  }

  /*
   * The underlying input stream.
   */

  /** A byte source read forward through a cursor: the `InputStream` that the
      wrappers delegate to. It always delivers as many bytes as asked for and
      available (no short reads). */
  class ByteSource {
    const data: seq<byte>
    var pos: nat

    ghost predicate Valid()
      reads this
    {
      pos <= |data|
    }

    constructor (data: seq<byte>)
      ensures Valid() && this.data == data && pos == 0
    {
      this.data := data;
      pos := 0;
    }

    /** InputStream.read(): the next byte, or -1 at the end. */
    method ReadByte() returns (b: int)
      requires Valid()
      modifies this`pos
      ensures Valid()
      ensures old(pos) < |data| ==> b == data[old(pos)] && pos == old(pos) + 1
      ensures old(pos) == |data| ==> b == -1 && pos == old(pos)
    {
      if pos < |data| {
        b := data[pos];
        pos := pos + 1;
      } else {
        b := -1;
      }
    }

    /** InputStream.read(b, off, len): 0 when nothing is asked for, -1 at the
        end, otherwise as many bytes as asked for and available, copied into
        buf[off..]. */
    method Read(buf: array<byte>, off: nat, len: nat) returns (n: int)
      requires Valid()
      requires off + len <= buf.Length
      modifies this`pos, buf
      ensures Valid()
      ensures len == 0 ==> n == 0
      ensures len > 0 && old(pos) == |data| ==> n == -1
      ensures len > 0 && old(pos) < |data| ==> n == Min(len, |data| - old(pos))
      ensures pos == old(pos) + (if n > 0 then n else 0)
      ensures n > 0 ==> buf[off..off + n] == data[old(pos)..pos]
      ensures n <= 0 ==> buf[..] == old(buf[..])
      ensures forall i :: 0 <= i < buf.Length && !(off <= i < off + len) ==> buf[i] == old(buf[i])
    {
      if len == 0 {
        n := 0;
      } else if pos == |data| {
        n := -1;
      } else {
        n := Min(len, |data| - pos);
        forall i | off <= i < off + n {
          buf[i] := data[pos + i - off];
        }
        pos := pos + n;
      }
    }
  }
}

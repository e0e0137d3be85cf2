/** MaxLengthRecordingInputStream: an input stream with a hard ceiling on the
    bytes it hands out, which keeps an in-memory recording of what it read. */
module RecordingStream {
  import opened Common

  /** Buffer size used when skipping by reading. */
  const SKIP_READ_BUFFER_SIZE: nat := 1024

  /** One successful transfer from the wrapped stream: bytes handed to the
      caller by a read, or bytes thrown away by a skip. */
  datatype Delivery = Delivered(bytes: seq<byte>) | Skipped(bytes: seq<byte>)

  /** Everything taken from the wrapped stream, in order. */
  function Consumed(log: seq<Delivery>): seq<byte>
  {
    if log == [] then [] else Consumed(log[..|log| - 1]) + log[|log| - 1].bytes
  }

  /** What the recording holds after the transfers of `log`. A skip delegates
      to the recording read and then records the same bytes once more, so
      skipped bytes appear twice. */
  function Recorded(log: seq<Delivery>): seq<byte>
  {
    if log == [] then []
    else
      var d := log[|log| - 1];
      Recorded(log[..|log| - 1]) + (if d.Skipped? then d.bytes + d.bytes else d.bytes)
  }

  /** Number of bytes handed to the caller by reads. */
  function ReadCount(log: seq<Delivery>): nat
  {
    if log == [] then 0
    else ReadCount(log[..|log| - 1]) + (if log[|log| - 1].Delivered? then |log[|log| - 1].bytes| else 0)
  }

  /** Number of bytes thrown away by skips. */
  function SkipCount(log: seq<Delivery>): nat
  {
    if log == [] then 0
    else SkipCount(log[..|log| - 1]) + (if log[|log| - 1].Skipped? then |log[|log| - 1].bytes| else 0)
  }

  /** The ceiling counts read and skipped bytes alike. */
  lemma {:induction false} ConsumedLength(log: seq<Delivery>)
    ensures |Consumed(log)| == ReadCount(log) + SkipCount(log)
  {
    if log != [] {
      ConsumedLength(log[..|log| - 1]);
    }
  }

  /** The recording counts skipped bytes twice:
      |recording| = bytesRead + 2 * bytesSkipped. */
  lemma {:induction false} RecordedLength(log: seq<Delivery>)
    ensures |Recorded(log)| == ReadCount(log) + 2 * SkipCount(log)
  {
    if log != [] {
      RecordedLength(log[..|log| - 1]);
    }
  }

  /** As long as nothing was skipped the recording is exactly what was
      delivered, byte for byte. */
  lemma {:induction false} RecordingWithoutSkips(log: seq<Delivery>)
    requires forall i :: 0 <= i < |log| ==> log[i].Delivered?
    ensures Recorded(log) == Consumed(log)
  {
    if log != [] {
      RecordingWithoutSkips(log[..|log| - 1]);
    }
  }

  /** One skipped byte already makes the recording differ from what was
      consumed: it holds that byte twice. */
  lemma SkippedByteRecordedTwice(x: byte)
    ensures Consumed([Skipped([x])]) == [x]
    ensures Recorded([Skipped([x])]) == [x, x]
  {
    assert [Skipped([x])][..0] == [];
  }

  /** One more transfer adds its bytes to what was consumed and to the
      recording. */
  lemma LogExtended(log: seq<Delivery>, d: Delivery)
    ensures Consumed(log + [d]) == Consumed(log) + d.bytes
    ensures Recorded(log + [d]) == Recorded(log) + (if d.Skipped? then d.bytes + d.bytes else d.bytes)
  {
    assert (log + [d])[..|log|] == log;
  }

  class MaxLengthRecordingInputStream {
    /** The wrapped stream. */
    const source: ByteSource
    /** Scratch buffer that skip reads into. */
    const skipReadBuffer: array<byte>
    /** The recording of data read. */
    var record: seq<byte>
    /** Maximum remaining bytes available. */
    var available: int

    /** The ceiling given at construction. */
    ghost const limit: int
    /** Position of the wrapped stream at construction. */
    ghost const start: nat
    /** Every successful transfer so far. */
    ghost var log: seq<Delivery>

    ghost predicate Valid()
      reads this, source
    {
      source.Valid() &&
      skipReadBuffer.Length == SKIP_READ_BUFFER_SIZE &&
      start <= source.pos &&
      source.data[start..source.pos] == Consumed(log) &&
      record == Recorded(log) &&
      available == limit - |Consumed(log)| &&
      (available >= 0 || log == [])
    }

    /** No more bytes than the ceiling are ever taken from the wrapped stream,
        and a non-positive ceiling lets none through. */
    lemma DeliveredWithinLimit()
      requires Valid()
      ensures |Consumed(log)| <= if limit > 0 then limit else 0
      ensures source.pos - start == limit - available
    {
    }

    constructor (source: ByteSource, available: int)
      requires source.Valid() && IsLong(available)
      ensures Valid() && fresh(skipReadBuffer)
      ensures this.source == source && this.available == available && limit == available
      ensures record == [] && log == [] && start == source.pos
    {
      this.source := source;
      this.available := available;
      limit := available;
      start := source.pos;
      record := [];
      log := [];
      skipReadBuffer := new byte[SKIP_READ_BUFFER_SIZE];
    }

    /** getRecording: the bytes recorded so far. */
    method GetRecording() returns (r: seq<byte>)
      requires Valid()
      ensures r == Recorded(log)
      ensures |r| == ReadCount(log) + 2 * SkipCount(log)
    {
      r := record;
      RecordedLength(log);
    }

    /** close: closes only the recording, which keeps its contents; the
        wrapped stream is neither closed nor advanced. */
    method Close()
      requires Valid()
      ensures Valid()
      ensures unchanged(this, source)
    {
    }

    /** available(): the remaining count, clamped to Integer.MAX_VALUE. */
    method Available() returns (r: int)
      ensures available >= 0 ==> r == Min(available, INT_MAX)
      ensures available < 0 ==> r == ToInt32(available)
      ensures INT_MIN <= r <= INT_MAX
    {
      r := if available > INT_MAX then INT_MAX else ToInt32(available);
    }

    method MarkSupported() returns (r: bool)
      ensures !r
    {
      r := false;
    }

    /** mark is accepted and does nothing. */
    method Mark(readLimit: int)
      ensures unchanged(this, source)
    {
    }

    /** reset always fails with UnsupportedOperationException. */
    method Reset() returns (r: Result<()>)
      ensures r == Err(UnsupportedOperation)
    {
      r := Err(UnsupportedOperation);
    }

    /** read(): the next byte, or -1 once the ceiling or the end of the
        wrapped stream is reached. */
    method ReadByte() returns (b: int)
      requires Valid()
      modifies this`available, this`record, this`log, source`pos
      ensures Valid()
      ensures old(available) <= 0 ==> b == -1 && source.pos == old(source.pos)
      ensures old(available) > 0 && old(source.pos) < |source.data| ==> b == source.data[old(source.pos)]
      ensures b != -1 ==> 0 <= b < 256 && available == old(available) - 1 &&
                          record == old(record) + [b] && log == old(log) + [Delivered([b])]
      ensures b == -1 ==> available == old(available) && record == old(record) &&
                          log == old(log) && source.pos == old(source.pos)
    {
      b := -1;
      if available > 0 {
        b := source.ReadByte();
        if b != -1 {
          available := available - 1;
          record := record + [b];
          log := log + [Delivered([b])];
          LogExtended(old(log), Delivered([b]));
          assert source.data[start..source.pos] == source.data[start..old(source.pos)] + [b];
        }
      }
    }

    /** read(b, off, len): asks the wrapped stream for at most
        min(len, available) bytes and records what it gets. */
    method Read(b: array<byte>, off: nat, len: nat) returns (l: int)
      requires Valid()
      requires off + len <= b.Length
      modifies this`available, this`record, this`log, source`pos, b
      ensures Valid()
      ensures old(available) <= 0 ==> l == -1 && source.pos == old(source.pos) && b[..] == old(b[..])
      ensures old(available) > 0 && len == 0 ==> l == 0
      ensures old(available) > 0 && len > 0 && old(source.pos) == |source.data| ==> l == -1
      ensures old(available) > 0 && len > 0 && old(source.pos) < |source.data| ==>
                l == Min(Min(len, old(available)), |source.data| - old(source.pos))
      ensures l == -1 || l <= Min(len, old(available))
      ensures l > 0 ==> available == old(available) - l &&
                        b[off..off + l] == source.data[old(source.pos)..source.pos] &&
                        record == old(record) + b[off..off + l] &&
                        log == old(log) + [Delivered(b[off..off + l])]
      ensures l <= 0 ==> available == old(available) && record == old(record) &&
                         log == old(log) && source.pos == old(source.pos)
      ensures forall i :: 0 <= i < b.Length && !(off <= i < off + len) ==> b[i] == old(b[i])
    {
      l := -1;
      if available > 0 {
        l := source.Read(b, off, Min(len, available));
        if l > 0 {
          available := available - l;
          record := record + b[off..off + l];
          log := log + [Delivered(b[off..off + l])];
          assert log[..|log| - 1] == old(log);
          assert source.data[start..source.pos] == source.data[start..old(source.pos)] + source.data[old(source.pos)..source.pos];
        }
      }
    }

    /** read(b): read(b, 0, b.length). */
    method ReadArray(b: array<byte>) returns (l: int)
      requires Valid()
      modifies this`available, this`record, this`log, source`pos, b
      ensures Valid()
      ensures old(available) <= 0 ==> l == -1 && source.pos == old(source.pos) && b[..] == old(b[..])
      ensures old(available) > 0 && b.Length == 0 ==> l == 0
      ensures old(available) > 0 && b.Length > 0 && old(source.pos) == |source.data| ==> l == -1
      ensures old(available) > 0 && b.Length > 0 && old(source.pos) < |source.data| ==>
                l == Min(Min(b.Length, old(available)), |source.data| - old(source.pos))
      ensures l == -1 || l <= Min(b.Length, old(available))
      ensures l > 0 ==> available == old(available) - l &&
                        b[..l] == source.data[old(source.pos)..source.pos] &&
                        record == old(record) + b[..l] &&
                        log == old(log) + [Delivered(b[..l])]
      ensures l <= 0 ==> available == old(available) && record == old(record) &&
                         log == old(log) && source.pos == old(source.pos)
    {
      l := Read(b, 0, b.Length);
    }

    /** skip(n): reads at most min(n, available, 1024) bytes through the
        recording read and then records them a second time; 0, never -1,
        when nothing was consumed. */
    method Skip(n: int) returns (l: int)
      requires Valid()
      requires n >= 0
      modifies this`available, this`record, this`log, source`pos, skipReadBuffer
      ensures Valid()
      ensures 0 <= l && old(source.pos) <= source.pos
      ensures l > 0 ==> l <= n && l <= old(available) && l <= SKIP_READ_BUFFER_SIZE
      ensures old(available) > 0 && n > 0 && old(source.pos) < |source.data| ==>
                l == Min(Min(Min(n, old(available)), SKIP_READ_BUFFER_SIZE), |source.data| - old(source.pos))
      ensures l > 0 ==> var chunk := source.data[old(source.pos)..source.pos];
                        |chunk| == l && available == old(available) - l &&
                        record == old(record) + chunk + chunk &&
                        log == old(log) + [Skipped(chunk)]
      ensures l == 0 ==> available == old(available) && record == old(record) &&
                         log == old(log) && source.pos == old(source.pos)
    {
      l := 0;
      if available > 0 {
        ghost var logBefore := log;
        ghost var recordBefore := record;
        l := Read(skipReadBuffer, 0, Min(Min(n, available), SKIP_READ_BUFFER_SIZE));
        if l > 0 {
          ghost var chunk := skipReadBuffer[0..l];
          record := record + skipReadBuffer[0..l];
          log := logBefore + [Skipped(chunk)];
          assert log[..|log| - 1] == logBefore;
          assert record == recordBefore + chunk + chunk;
        } else {
          l := 0;
        }
      }
    }
  }
}

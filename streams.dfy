/**
 * Byte streams as a reader sees them. The transport delivers what the
 * remote side wrote as a sequence of chunks whose boundaries the reader
 * does not control; a `Read` into a buffer returns at most one chunk (cut
 * to the buffer's size), and the stream ends with a clean close or with an
 * error.
 */
module Streams {
  import opened Bytes

  /** How the stream ends once every chunk has been read: io.EOF, or a reset or transport failure. */
  datatype Tail = Closed | Broken

  /** What is still to be read. */
  datatype Stream = Stream(pending: seq<Bytes>, tail: Tail)

  /** The outcome of Go's `n, err := s.Read(buf)`: `n` bytes, io.EOF, or another error. */
  datatype ReadResult = Data(bytes: Bytes) | EndOfStream | ReadFailed

  /** One `Read` into a buffer of `max` bytes; the part of the chunk that did not fit stays pending. */
  function Read(s: Stream, max: nat): (res: (ReadResult, Stream))
    requires max > 0
    ensures res.0.Data? <==> s.pending != []
    ensures res.0.Data? ==> |res.0.bytes| <= max
    ensures res.0.EndOfStream? <==> s.pending == [] && s.tail == Closed
    ensures res.1.tail == s.tail
  {
    if s.pending == [] then
      (if s.tail == Closed then EndOfStream else ReadFailed, s)
    else
      var c := s.pending[0];
      if |c| <= max then (Data(c), Stream(s.pending[1..], s.tail))
      else (Data(c[..max]), Stream([c[max..]] + s.pending[1..], s.tail))
  }

  /** A read loses no byte: what it returns, followed by what stays pending, is what was pending. */
  lemma ReadConserves(s: Stream, max: nat)
    requires max > 0 && s.pending != []
    ensures Read(s, max).0.bytes + Concat(Read(s, max).1.pending) == Concat(s.pending)
  {
    var c := s.pending[0];
    if |c| > max {
      var rest := [c[max..]] + s.pending[1..];
      assert rest[0] == c[max..] && rest[1..] == s.pending[1..];
      assert c[..max] + c[max..] == c;
    }
  }

  /** The first `room` bytes of `data`, or all of it when it fits. */
  function Fit(data: Bytes, room: nat): (r: Bytes)
    ensures IsPrefix(r, data)
    ensures r == data <==> |data| <= room
  {
    if |data| <= room then data else data[..room]
  }

  /** What fits after a fixed head is a prefix of the head and everything, and all of it exactly when everything fits. */
  lemma FitAfter(head: Bytes, data: Bytes, room: nat)
    ensures IsPrefix(head + Fit(data, room), head + data)
    ensures head + Fit(data, room) == head + data <==> |data| <= room
  {
    var f := Fit(data, room);
    assert (head + data)[..|head| + |f|] == head + f;
    if head + f == head + data {
      assert f == (head + f)[|head|..] == (head + data)[|head|..] == data;
    }
  }

  /**
   * `io.Copy` from the stream into a file that takes `room` more bytes
   * before a write fails: reads of at most `max` bytes, each written out,
   * until a read returns no data or a write fails. The file receives every
   * remaining byte that fits, in order, and the copy succeeds exactly when
   * the stream was closed cleanly and everything fitted.
   */
  function Copy(s: Stream, max: nat, room: nat): (r: (Bytes, bool))
    requires max > 0
    ensures r.0 == Fit(Concat(s.pending), room)
    ensures r.1 <==> s.tail == Closed && |Concat(s.pending)| <= room
    decreases |Concat(s.pending)|, |s.pending|
  {
    var (res, rest) := Read(s, max);
    match res
    case Data(b) =>
      ReadConserves(s, max);
      var all := Concat(s.pending);
      assert all == b + Concat(rest.pending);
      if |b| > room then
        assert all[..room] == b[..room];
        (b[..room], false)
      else
        var (more, ok) := Copy(rest, max, room - |b|);
        assert |all| <= room ==> b + more == all;
        assert |all| > room ==> b + more == all[..room];
        (b + more, ok)
    case EndOfStream => ([], true)
    case ReadFailed => ([], false)
  }

  /** The remote side's writes all arrived, in order and in some chunking, and the stream was closed cleanly. */
  predicate Delivers(writes: seq<Bytes>, s: Stream) {
    Concat(s.pending) == Concat(writes) && s.tail == Closed
  }

  /**
   * Whatever the chunking, the first read of a delivered stream is a prefix
   * of what was written, no longer than the buffer; it is all of it exactly
   * when the first chunk carried everything and fits the buffer.
   */
  lemma FirstReadIsPrefix(writes: seq<Bytes>, s: Stream, max: nat)
    requires max > 0 && Delivers(writes, s) && s.pending != []
    ensures IsPrefix(Read(s, max).0.bytes, Concat(writes))
    ensures Read(s, max).0.bytes == Concat(writes) <==> Concat(Read(s, max).1.pending) == []
  {
    ReadConserves(s, max);
    var b := Read(s, max).0.bytes;
    var rest := Concat(Read(s, max).1.pending);
    assert (b + rest)[..|b|] == b;
  }

  /** How the remote end of an outbound stream behaves: whether it opens, and how many writes succeed before one fails. */
  datatype Link = Link(opens: bool, acceptedWrites: nat)
}

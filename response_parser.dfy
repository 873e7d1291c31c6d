/**
 * The incremental parser of the upstream proxy's answer to CONNECT: it
 * buffers every chunk the socket delivers until the header block ends with
 * an empty line, then reports the status code of the status line together
 * with everything buffered so far (section 4 of RFC 9112 defines the status
 * line).
 */
module ResponseParser {
  import opened Wrappers
  import opened Text

  type Byte = b: int | 0 <= b < 256

  const CRLF: seq<Byte> := [13, 10]

  /** The empty line that ends a header block. */
  const EndOfHeaders: seq<Byte> := [13, 10, 13, 10]

  /** What the parser resolves with: the status code and every byte buffered. */
  datatype ParsedResponse = ParsedResponse(statusCode: Option<nat>, buffered: seq<Byte>)

  /** `Buffer.concat(buffers)`. */
  function Flatten(buffers: seq<seq<Byte>>): seq<Byte>
  {
    if buffers == [] then [] else buffers[0] + Flatten(buffers[1..])
  }

  lemma {:induction false} FlattenAppend(buffers: seq<seq<Byte>>, b: seq<Byte>)
    ensures Flatten(buffers + [b]) == Flatten(buffers) + b
  {
    if buffers != [] {
      assert (buffers + [b])[1..] == buffers[1..] + [b];
      FlattenAppend(buffers[1..], b);
    }
  }

  predicate HasEndOfHeaders(buffered: seq<Byte>)
  {
    IndexOf(buffered, EndOfHeaders) != -1
  }

  /** Once the header block has ended, the first line break lies at or before its end. */
  lemma FirstLineWithinHeaders(buffered: seq<Byte>)
    requires HasEndOfHeaders(buffered)
    ensures 0 <= IndexOf(buffered, CRLF) <= IndexOf(buffered, EndOfHeaders)
  {
    var e := IndexOf(buffered, EndOfHeaders);
    assert OccursAt(buffered, EndOfHeaders, e);
    assert buffered[e..e + 2] == buffered[e..e + 4][..2];
    assert OccursAt(buffered, CRLF, e);
  }

  /** `buffer.toString('ascii')`: each byte with its high bit cleared. */
  function AsciiDecode(bytes: seq<Byte>): (text: string)
    ensures |text| == |bytes|
    ensures forall i :: 0 <= i < |bytes| ==> text[i] as int < 128
    ensures forall i :: 0 <= i < |bytes| && bytes[i] < 128 ==> text[i] as int == bytes[i]
  {
    seq(|bytes|, i requires 0 <= i < |bytes| => (bytes[i] % 128) as char)
  }

  /** The bytes before the first line break. */
  function FirstLine(buffered: seq<Byte>): seq<Byte>
    requires HasEndOfHeaders(buffered)
  {
    FirstLineWithinHeaders(buffered);
    buffered[..IndexOf(buffered, CRLF)]
  }

  /** `+firstLine.split(' ')[1]`: the numeric second space-separated token. */
  function StatusCodeOf(firstLine: string): (r: Option<nat>)
    ensures r.Some? ==> exists k :: 0 <= k < |firstLine| && firstLine[k] == ' '
  {
    var tokens := Split(firstLine, ' ');
    if |tokens| < 2 then None
    else
      JoinHasSeparator(tokens, ' ');
      ToNumber(tokens[1])
  }

  /**
   * The status code of a status line `<version> <code> <reason>` is the
   * numeric value of `<code>`, with or without a reason phrase.
   */
  lemma StatusOfStatusLine(version: string, code: string, reason: string)
    requires ' ' !in version && ' ' !in code
    ensures StatusCodeOf(version + " " + code + " " + reason) == ToNumber(code)
    ensures StatusCodeOf(version + " " + code) == ToNumber(code)
  {
    SplitAtFirst(code, reason, ' ');
    SplitAtFirst(version, code + [' '] + reason, ' ');
    assert version + " " + code + " " + reason == version + [' '] + (code + [' '] + reason);
    SplitWithoutSeparator(code, ' ');
    SplitAtFirst(version, code, ' ');
    assert version + " " + code == version + [' '] + code;
  }

  /** What the parser reports once `buffered` holds the data received so far. */
  function Report(buffered: seq<Byte>): Option<ParsedResponse>
  {
    if HasEndOfHeaders(buffered) then
      Some(ParsedResponse(StatusCodeOf(AsciiDecode(FirstLine(buffered))), buffered))
    else None
  }

  /**
   * The whole stream as the parser sees it: `buffered` is what it holds, and
   * each chunk is appended in turn until one completes the header block.
   */
  function Deliver(buffered: seq<Byte>, chunks: seq<seq<Byte>>): Option<ParsedResponse>
    decreases |chunks|
  {
    if chunks == [] then None
    else
      var next := buffered + chunks[0];
      if HasEndOfHeaders(next) then Report(next) else Deliver(next, chunks[1..])
  }

  /**
   * The closure state of `parseProxyResponse`: the list of chunks received
   * and their total length.
   */
  class Parser {
    var buffers: seq<seq<Byte>>
    var buffersLength: nat

    ghost predicate Valid()
      reads this
    {
      buffersLength == |Flatten(buffers)|
    }

    /** Everything received so far, in order. */
    function Buffered(): seq<Byte>
      reads this
    {
      Flatten(buffers)
    }

    /** The header block has not ended yet, so the parser still reads. */
    predicate Waiting()
      reads this
    {
      !HasEndOfHeaders(Flatten(buffers))
    }

    constructor ()
      ensures Valid() && Waiting()
      ensures buffers == []
    {
      buffers := [];
      buffersLength := 0;
    }

    /**
     * `ondata`: buffer the chunk; report nothing while the header block is
     * incomplete, otherwise the status code and the whole buffer.
     */
    method OnData(b: seq<Byte>) returns (r: Option<ParsedResponse>)
      requires Valid() && Waiting()
      modifies this
      ensures Valid()
      ensures buffers == old(buffers) + [b]
      ensures r == Report(Buffered())
    {
      FlattenAppend(buffers, b);
      buffers := buffers + [b];
      buffersLength := buffersLength + |b|;

      var buffered := Flatten(buffers);
      var endOfHeaders := IndexOf(buffered, EndOfHeaders);
      if endOfHeaders == -1 {
        return None;
      }
      FirstLineWithinHeaders(buffered);
      var firstLine := AsciiDecode(buffered[..IndexOf(buffered, CRLF)]);
      var statusCode := StatusCodeOf(firstLine);
      return Some(ParsedResponse(statusCode, buffered));
    }
  }

  /**
   * `parseProxyResponse`: read the socket's chunks one by one into a fresh
   * parser until it reports; `None` when the chunks run out first.
   */
  method ReadUntilHeaders(chunks: seq<seq<Byte>>) returns (r: Option<ParsedResponse>)
    ensures r == Deliver([], chunks)
  {
    var parser := new Parser();
    var i := 0;
    r := None;
    while i < |chunks| && r.None?
      invariant 0 <= i <= |chunks|
      invariant parser.Valid()
      invariant parser.buffers == chunks[..i]
      invariant r.None? ==> parser.Waiting() && Deliver([], chunks) == Deliver(parser.Buffered(), chunks[i..])
      invariant r.Some? ==> r == Deliver([], chunks)
    {
      ghost var before := parser.Buffered();
      r := parser.OnData(chunks[i]);
      assert chunks[..i + 1] == chunks[..i] + [chunks[i]];
      FlattenAppend(chunks[..i], chunks[i]);
      assert chunks[i..][1..] == chunks[i + 1..];
      i := i + 1;
    }
  }

  // ---------------------------------------------------------------------------
  // Properties of the parser
  // ---------------------------------------------------------------------------

  /**
   * Bytes arriving after the header block has ended do not change the status
   * code: it is read from the first line, which is already inside.
   */
  lemma {:induction false} StatusStable(s: seq<Byte>, t: seq<Byte>)
    requires HasEndOfHeaders(s)
    ensures HasEndOfHeaders(s + t)
    ensures Report(s + t).value.statusCode == Report(s).value.statusCode
  {
    IndexOfExtended(s, t, EndOfHeaders);
    FirstLineWithinHeaders(s);
    IndexOfExtended(s, t, CRLF);
    var c := IndexOf(s, CRLF);
    assert (s + t)[..c] == s[..c];
  }

  lemma {:induction false} FlattenCons(c: seq<Byte>, chunks: seq<seq<Byte>>)
    ensures Flatten([c] + chunks) == c + Flatten(chunks)
  {
    assert ([c] + chunks)[1..] == chunks;
  }

  /** While the concatenation of all chunks lacks the empty line, nothing is reported. */
  lemma {:induction false} WaitsForEndOfHeaders(buffered: seq<Byte>, chunks: seq<seq<Byte>>)
    requires !HasEndOfHeaders(buffered + Flatten(chunks))
    ensures Deliver(buffered, chunks) == None
    decreases |chunks|
  {
    if chunks != [] {
      var next := buffered + chunks[0];
      FlattenCons(chunks[0], chunks[1..]);
      assert [chunks[0]] + chunks[1..] == chunks;
      assert buffered + Flatten(chunks) == next + Flatten(chunks[1..]);
      if HasEndOfHeaders(next) {
        StatusStable(next, Flatten(chunks[1..]));
      }
      WaitsForEndOfHeaders(next, chunks[1..]);
    }
  }

  /**
   * The chunk that completes the header block makes the parser report the
   * whole concatenation so far, the bytes after the empty line included.
   */
  lemma {:induction false} ReportsAtCompletingChunk(buffered: seq<Byte>, chunks: seq<seq<Byte>>, k: nat)
    requires 0 < k <= |chunks|
    requires !HasEndOfHeaders(buffered + Flatten(chunks[..k - 1]))
    requires HasEndOfHeaders(buffered + Flatten(chunks[..k]))
    ensures Deliver(buffered, chunks) == Report(buffered + Flatten(chunks[..k]))
    decreases k
  {
    var next := buffered + chunks[0];
    FlattenCons(chunks[0], chunks[1..k]);
    assert chunks[..k] == [chunks[0]] + chunks[1..k];
    assert buffered + Flatten(chunks[..k]) == next + Flatten(chunks[1..k]);
    if k == 1 {
      assert chunks[1..k] == [];
      assert Flatten(chunks[..k]) == chunks[0];
    } else {
      FlattenCons(chunks[0], chunks[1..k - 1]);
      assert chunks[..k - 1] == [chunks[0]] + chunks[1..k - 1];
      assert buffered + Flatten(chunks[..k - 1]) == next + Flatten(chunks[1..k - 1]);
      if HasEndOfHeaders(next) {
        StatusStable(next, Flatten(chunks[1..k - 1]));
      }
      assert chunks[1..][..k - 1] == chunks[1..k];
      assert chunks[1..][..k - 2] == chunks[1..k - 1];
      ReportsAtCompletingChunk(next, chunks[1..], k - 1);
    }
  }

  /** The status code of a stream whose header block has ended. */
  function StreamStatus(s: seq<Byte>): Option<nat>
    requires HasEndOfHeaders(s)
  {
    Report(s).value.statusCode
  }

  /**
   * Whatever chunks a stream arrives in, once they contain the empty line the
   * parser reports, with the status code of the whole stream: here the
   * stream is what was buffered, then the chunks, then any `tail` not yet
   * delivered.
   */
  lemma {:induction false} ReportedStatusIsStreamStatus(buffered: seq<Byte>, chunks: seq<seq<Byte>>, tail: seq<Byte>)
    requires !HasEndOfHeaders(buffered)
    requires HasEndOfHeaders(buffered + Flatten(chunks))
    ensures HasEndOfHeaders(buffered + Flatten(chunks) + tail)
    ensures Deliver(buffered, chunks).Some?
    ensures Deliver(buffered, chunks).value.statusCode == StreamStatus(buffered + Flatten(chunks) + tail)
    decreases |chunks|
  {
    StatusStable(buffered + Flatten(chunks), tail);
    assert chunks == [] ==> buffered + Flatten(chunks) == buffered;
    if chunks == [] {
      assert false;
    } else {
      var next := buffered + chunks[0];
      var later := Flatten(chunks[1..]);
      FirstChunkThenRest(buffered, chunks, tail);
      if HasEndOfHeaders(next) {
        StatusStable(next, later + tail);
      } else {
        ReportedStatusIsStreamStatus(next, chunks[1..], tail);
      }
    }
  }

  /** The stream seen as the first chunk appended to the buffer, then the other chunks. */
  lemma FirstChunkThenRest(buffered: seq<Byte>, chunks: seq<seq<Byte>>, tail: seq<Byte>)
    requires chunks != []
    ensures buffered + Flatten(chunks) == (buffered + chunks[0]) + Flatten(chunks[1..])
    ensures buffered + Flatten(chunks) + tail == (buffered + chunks[0]) + (Flatten(chunks[1..]) + tail)
    ensures buffered + Flatten(chunks) + tail == (buffered + chunks[0]) + Flatten(chunks[1..]) + tail
  {
    var next, later := buffered + chunks[0], Flatten(chunks[1..]);
    assert Flatten(chunks) == chunks[0] + later;
    assert buffered + (chunks[0] + later) == next + later;
    assert (next + later) + tail == next + (later + tail);
  }

  /** The status code does not depend on how the stream was split into chunks. */
  lemma SameStatusForAnySplit(chunks1: seq<seq<Byte>>, chunks2: seq<seq<Byte>>)
    requires Flatten(chunks1) == Flatten(chunks2)
    requires HasEndOfHeaders(Flatten(chunks1))
    ensures Deliver([], chunks1).Some? && Deliver([], chunks2).Some?
    ensures Deliver([], chunks1).value.statusCode == Deliver([], chunks2).value.statusCode
  {
    assert !HasEndOfHeaders([]);
    var s := Flatten(chunks1);
    assert [] + s == s;
    assert [] + s + [] == s;
    ReportedStatusIsStreamStatus([], chunks1, []);
    ReportedStatusIsStreamStatus([], chunks2, []);
  }

  /** The stream delivered one byte per chunk. */
  function Bytewise(s: seq<Byte>): (chunks: seq<seq<Byte>>)
    ensures |chunks| == |s|
  {
    seq(|s|, i requires 0 <= i < |s| => [s[i]])
  }

  lemma {:induction false} FlattenBytewise(s: seq<Byte>)
    ensures Flatten(Bytewise(s)) == s
  {
    if s != [] {
      FlattenBytewise(s[1..]);
      assert Bytewise(s)[1..] == Bytewise(s[1..]);
      assert [s[0]] + s[1..] == s;
    }
  }

  /**
   * Fed one byte at a time, the parser reports exactly the bytes up to and
   * including the empty line: nothing after it has been read yet.
   */
  lemma BytewiseStopsAtEndOfHeaders(s: seq<Byte>)
    requires HasEndOfHeaders(s)
    ensures Deliver([], Bytewise(s)) == Report(s[..IndexOf(s, EndOfHeaders) + 4])
  {
    var e := IndexOf(s, EndOfHeaders);
    var k := e + 4;
    var chunks := Bytewise(s);
    assert chunks[..k] == Bytewise(s[..k]);
    assert chunks[..k - 1] == Bytewise(s[..k - 1]);
    FlattenBytewise(s[..k]);
    FlattenBytewise(s[..k - 1]);
    assert [] + s[..k] == s[..k];
    assert [] + s[..k - 1] == s[..k - 1];
    assert OccursAt(s[..k], EndOfHeaders, e);
    var early := s[..k - 1];
    forall j | 0 <= j
      ensures !OccursAt(early, EndOfHeaders, j)
    {
      if OccursAt(early, EndOfHeaders, j) {
        assert early[j..j + 4] == s[j..j + 4];
        assert OccursAt(s, EndOfHeaders, j);
      }
    }
    ReportsAtCompletingChunk([], chunks, k);
  }

  /** Delivered in a single chunk, the whole chunk is reported, trailing bytes included. */
  lemma SingleChunkKeepsTrailingBytes(s: seq<Byte>)
    requires HasEndOfHeaders(s)
    ensures Deliver([], [s]) == Some(ParsedResponse(StreamStatus(s), s))
  {
    assert [] + s == s;
  }
}

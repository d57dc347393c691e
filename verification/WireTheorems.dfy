/**
 From one end of a connection to the other: messages written, ciphered, sent in fragments, cut into
 chunks, deciphered and read.
 */
module WireTheorems {
  import opened Sequences
  import opened WireValues
  import M = WireMessage
  import F = WireFraming
  import C = WireCipher
  import opened WireConnection

  /** A message that can be sent: something is written, its chunk is within the limit, and its size fits 32 bits. */
  predicate Sendable(items: seq<M.Item>, limit: nat) {
    M.AllWritable(items) && items != [] && !F.Refused(|M.Chunk(items)|, limit) && |M.Chunk(items)| < Power(4)
  }

  predicate AllSendable(messages: seq<seq<M.Item>>, limit: nat) {
    forall i | 0 <= i < |messages| :: Sendable(messages[i], limit)
  }

  function Sent(items: seq<M.Item>, cipher: C.Method): seq<byte>
    requires M.AllWritable(items) && C.Known(cipher)
  {
    Finished(M.Body(items), cipher)
  }

  function Deciphered(chunk: seq<byte>, cipher: C.Method): seq<byte>
    requires |chunk| >= 4 && C.Known(cipher)
  {
    C.CodedChunk(cipher, false, chunk, 0, |chunk|)
  }

  /** A chunk keeps its size when it is coded, and decoding gives it back. */
  lemma SentIsChunk(items: seq<M.Item>, cipher: C.Method, limit: nat)
    requires Sendable(items, limit) && C.Known(cipher)
    ensures F.WellFormed(Sent(items, cipher), limit) && Deciphered(Sent(items, cipher), cipher) == M.Chunk(items)
  {
    var chunk := M.Chunk(items);
    var body := M.Body(items);
    var coded := C.Code(cipher, true, body);
    assert chunk[..4] == M.SizeBytes(|chunk|) && chunk[4..|chunk|] == body && chunk[|chunk|..] == [];
    var sent := Sent(items, cipher);
    assert sent == M.SizeBytes(|chunk|) + coded;
    assert sent[..4] == M.SizeBytes(|chunk|) && sent[4..|sent|] == coded && sent[|sent|..] == [];
    ValueOfLittleEndian(|chunk|, 4);
    C.DecodeCode(cipher, body);
  }

  function SentAll(messages: seq<seq<M.Item>>, cipher: C.Method): (chunks: seq<seq<byte>>)
    requires M.Messages(messages) && C.Known(cipher)
    ensures |chunks| == |messages|
    ensures forall i | 0 <= i < |messages| :: chunks[i] == Sent(messages[i], cipher)
  {
    seq(|messages|, i requires 0 <= i < |messages| => Sent(messages[i], cipher))
  }

  /** However the stream of the messages is fragmented, their chunks arrive, in order, once each. */
  lemma MessagesArrive(first: F.Capacity, messages: seq<seq<M.Item>>, cipher: C.Method, limit: nat,
                       fragments: seq<seq<byte>>)
    requires AllSendable(messages, limit) && C.Known(cipher) && F.Fits(first, fragments, limit)
    requires Joined(fragments) == F.Flat(SentAll(messages, cipher))
    ensures var c := F.After(first, fragments, limit);
      && !c.failed && c.buffer.data == [] && c.chunks == SentAll(messages, cipher)
  {
    forall i | 0 <= i < |messages|
      ensures F.WellFormed(SentAll(messages, cipher)[i], limit)
    {
      SentIsChunk(messages[i], cipher, limit);
    }
    F.ChunksArrive(first, fragments, SentAll(messages, cipher), limit);
  }

  /** The chunks received are deciphered and read as what was sent, some of them anew. */
  predicate ReadingsFrom(readings: seq<M.Reading>, chunks: seq<seq<byte>>, anew: seq<bool>,
                         messages: seq<seq<M.Item>>, cipher: C.Method)
    requires C.Known(cipher) && M.Messages(messages)
  {
    && |readings| == |chunks| == |anew| == |messages|
    && forall i | 0 <= i < |chunks| ::
      && |chunks[i]| >= 4 && readings[i].chunk == Deciphered(chunks[i], cipher)
      && readings[i].anew == anew[i] && readings[i].kinds == M.Kinds(messages[i])
  }

  /** What one end writes, the other end reads, wherever it has looked for a chunk and found none. */
  lemma ConnectionRoundTrip(first: F.Capacity, messages: seq<seq<M.Item>>, cipher: C.Method, limit: nat,
                            fragments: seq<seq<byte>>, anew: seq<bool>, readings: seq<M.Reading>)
    requires AllSendable(messages, limit) && C.Known(cipher) && F.Fits(first, fragments, limit)
    requires |anew| == |messages| && M.Separated(messages, anew, 0)
    requires Joined(fragments) == F.Flat(SentAll(messages, cipher))
    requires ReadingsFrom(readings, F.After(first, fragments, limit).chunks, anew, messages, cipher)
    ensures M.ReadChunks(readings, 0, 0) == (messages, false)
  {
    MessagesArrive(first, messages, cipher, limit, fragments);
    forall i | 0 <= i < |messages|
      ensures readings[i].chunk == M.Chunk(messages[i])
    {
      SentIsChunk(messages[i], cipher, limit);
    }
    M.MessagesRoundTrip(readings, messages, anew, 0, 0);
  }

  /** So does an end that, after each fragment, reads chunks until it finds none. */
  lemma BatchesRoundTrip(first: F.Capacity, messages: seq<seq<M.Item>>, cipher: C.Method, limit: nat,
                         fragments: seq<seq<byte>>, readings: seq<M.Reading>)
    requires AllSendable(messages, limit) && C.Known(cipher) && F.Fits(first, fragments, limit)
    requires Joined(fragments) == F.Flat(SentAll(messages, cipher))
    requires var c, anew := F.After(first, fragments, limit), F.Restarts(first, fragments, limit);
      ReadingsFrom(readings, c.chunks, anew, messages, cipher) && M.Separated(messages, anew, 0)
    ensures M.ReadChunks(readings, 0, 0) == (messages, false)
  {
    ConnectionRoundTrip(first, messages, cipher, limit, fragments, F.Restarts(first, fragments, limit), readings);
  }

  /** If no fragment completes more than one chunk, all messages that do not end with an empty block are read. */
  lemma OneByOneRoundTrip(first: F.Capacity, messages: seq<seq<M.Item>>, cipher: C.Method, limit: nat,
                          fragments: seq<seq<byte>>, readings: seq<M.Reading>)
    requires AllSendable(messages, limit) && C.Known(cipher) && F.Fits(first, fragments, limit)
    requires Joined(fragments) == F.Flat(SentAll(messages, cipher))
    requires F.OneByOne(first, fragments, limit) && forall i | 0 <= i < |messages| :: !M.EndsEmpty(messages[i])
    requires var c, anew := F.After(first, fragments, limit), F.Restarts(first, fragments, limit);
      ReadingsFrom(readings, c.chunks, anew, messages, cipher)
    ensures M.ReadChunks(readings, 0, 0) == (messages, false)
  {
    F.OneByOneRestarts(first, fragments, limit);
    M.AllAnewSeparated(messages, F.Restarts(first, fragments, limit), 0);
    BatchesRoundTrip(first, messages, cipher, limit, fragments, readings);
  }
}

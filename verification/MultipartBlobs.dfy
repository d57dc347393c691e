/**
 Blobs in the multipart store: encoded, cut into parts, written, crashed into, loaded and decoded.
 */
module MultipartBlobs {
  import opened WireValues
  import opened MultipartStore
  import Base64

  /** The blob that was committed last, however many writes have failed since before their heads were put. */
  lemma CommittedBlobDecodes(start: Location, events: seq<Event>, blob: seq<byte>)
    requires Complete(start.items) && Sane(start.cache) && AllAllowed(start, events)
    requires blob != [] && Committed(Load(start.items), events) == Base64.Encode(blob)
    ensures var text := Load(Run(start, events).items); text != "" && Base64.Decode(text) == blob
  {
    CommittedTextLoads(start, events);
    Base64.RoundTrip(blob);
  }

  function Texts(blobs: seq<seq<byte>>): (texts: seq<string>)
    ensures |texts| == |blobs| && forall i | 0 <= i < |blobs| :: texts[i] == Base64.Encode(blobs[i])
  {
    seq(|blobs|, i requires 0 <= i < |blobs| => Base64.Encode(blobs[i]))
  }

  /** After any sequence of successful writes, what is loaded and decoded are the bytes last written. */
  lemma LastBlobDecodes(blobs: seq<seq<byte>>, most: nat)
    requires blobs != [] && forall i | 0 <= i < |blobs| ::
      blobs[i] != [] && PartCount(|Base64.Encode(blobs[i])|) <= most
    ensures var text := Load(AfterWrites(Texts(blobs)).items);
      text != "" && Base64.Decode(text) == blobs[|blobs| - 1]
  {
    forall i | 0 <= i < |blobs|
      ensures Texts(blobs)[i] != ""
    {
      Base64.RoundTrip(blobs[i]);
    }
    var texts := Texts(blobs);
    SuccessfulWrites(texts, most);
    Base64.RoundTrip(blobs[|blobs| - 1]);
    assert texts[|texts| - 1] == Base64.Encode(blobs[|blobs| - 1]);
  }

  /** A write that stops anywhere leaves the old blob or the new one, if the cache was fresh. */
  lemma StoppedWriteKeepsABlob(l: Location, before: seq<byte>, blob: seq<byte>, done: nat)
    requires Complete(l.items) && l.cache == HeadOf(l.items) && Sane(l.cache)
    requires before != [] && blob != [] && Load(l.items) == Base64.Encode(before)
    ensures var text := Load(Step(l, Stopped(Base64.Encode(blob), done)).items);
      && text != ""
      && Base64.Decode(text) == if done < PartCount(|Base64.Encode(blob)|) then before else blob
  {
    Base64.RoundTrip(before);
    Base64.RoundTrip(blob);
    FreshIsAllowed(l, Base64.Encode(blob));
    StepKeepsCommitted(l, Stopped(Base64.Encode(blob), done));
  }
}

/** The `microblocks_messaging_library` package: a single serial client
    class with its own copies of the encoder, the receive buffer and
    `_match`. */
module MessagingLibrary {
  import Utf8
  import opened Wrappers
  import opened Values
  import opened Framing
  import opened Broadcast

  /** The bytes `sendBroadcast(aString)` writes. There is no type check:
      anything but a str has no `.encode` and raises AttributeError; a
      string too long for the two length bytes makes bytearray raise
      ValueError. */
  function SendBroadcast(aString: PyValue): (r: Result<seq<Byte>, PyError>)
    ensures !aString.Str? ==> r == Err(AttributeError)
    ensures aString.Str? ==> (r.Ok? <==> |Utf8.Encode(aString.s)| + 1 < 65536)
    ensures aString.Str? && r.Err? ==> r.error == ValueError
    ensures r.Ok? ==>
      var utf8 := Utf8.Encode(aString.s);
      |r.value| == |utf8| + 6
      && r.value[..5] == [LongMarker, BroadcastType, 0, (|utf8| + 1) % 256, (|utf8| + 1) / 256]
      && r.value[5..|r.value| - 1] == utf8
      && r.value[|r.value| - 1] == Terminator
  {
    if !aString.Str? then Err(AttributeError) else BroadcastFrame(Utf8.Encode(aString.s))
  }

  /** What `sendBroadcast` writes comes back from a fresh receiver's
      `_match(27)` as one whole frame with nothing left over, and yet
      `receiveBroadcasts` raises UnicodeDecodeError on it: the slice
      `msgBytes[4:]` ends with the 0xFE terminator. */
  lemma SentBroadcastRejected(s: string)
    requires SendBroadcast(Str(s)).Ok?
    ensures Extract([] + SendBroadcast(Str(s)).value, OnlyType(27))
         == Extraction([SendBroadcast(Str(s)).value], [])
    ensures ReceiveOutcome(DecodeParts(Extract([] + SendBroadcast(Str(s)).value, OnlyType(27)).frames))
         == Err(UnicodeDecodeError)
  {
    assert [] + SendBroadcast(Str(s)).value == SendBroadcast(Str(s)).value;
    EncodeThenMatch(Utf8.Encode(s));
    TerminatedFrameRejected(SendBroadcast(Str(s)).value);
  }

  class MicroblocksMessage {
    /** `self._buffer` */
    var buffer: seq<Byte>

    /** Between calls the buffer is what a pass left: empty, or an
        incomplete frame from its marker on. */
    ghost predicate Valid()
      reads this
    {
      Quiescent(buffer)
    }

    /** `__init__`: the buffer starts empty. */
    constructor ()
      ensures Valid() && buffer == []
    {
      buffer := [];
    }

    /** `_match(filter)` */
    method Match(filter: Filter) returns (frames: seq<seq<Byte>>)
      modifies this
      ensures Extraction(frames, buffer) == Extract(old(buffer), filter)
      ensures Valid()
    {
      var rest;
      frames, rest := ScanFrames(buffer, filter);
      buffer := rest;
      RestIsQuiescentSuffix(old(buffer), filter);
    }

    /** `receiveBroadcasts()`, with the bytes `self.ser.read()` returned
        passed in as `data`. */
    method ReceiveBroadcasts(data: seq<Byte>) returns (r: Result<Option<string>, PyError>)
      requires Valid()
      modifies this
      ensures Valid()
      ensures data == [] ==> buffer == old(buffer) && r == Ok(None)
      ensures data != [] ==>
        var e := Extract(old(buffer) + data, OnlyType(BroadcastType));
        buffer == e.rest && r == ReceiveOutcome(DecodeParts(e.frames))
    {
      var result: seq<string> := [];
      if data != [] {
        buffer := buffer + data;
        var frames := Match(OnlyType(BroadcastType));
        var parts := DecodeFrames(frames);
        if parts.Err? {
          return Err(parts.error);
        }
        result := parts.value;
      }
      if result == [] {
        r := Ok(None);
      } else {
        r := Ok(Some(Join("", result)));
      }
    }
  }
}

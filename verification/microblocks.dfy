/** The `microblocks` package: the base class shared by the serial and BLE
    clients (its receive buffer, `_match`, the broadcast encoder and
    decoder) and the BLE client's `command` call string. */
module MicroBlocks {
  import Utf8
  import opened Wrappers
  import opened Values
  import opened Framing
  import opened Broadcast

  /** `_generate_broadcast_message`: TypeError for anything but a str,
      ValueError when the length no longer fits two bytes, otherwise the
      type-27 long frame around the UTF-8 bytes of the string. */
  function GenerateBroadcastMessage(aString: PyValue): (r: Result<seq<Byte>, PyError>)
    ensures !aString.Str? ==> r == Err(TypeError)
    ensures aString.Str? ==> (r.Ok? <==> |Utf8.Encode(aString.s)| + 1 < 65536)
    ensures aString.Str? && r.Err? ==> r.error == ValueError
    ensures r.Ok? ==>
      var utf8 := Utf8.Encode(aString.s);
      |r.value| == |utf8| + 6
      && r.value[..5] == [LongMarker, BroadcastType, 0, (|utf8| + 1) % 256, (|utf8| + 1) / 256]
      && r.value[5..|r.value| - 1] == utf8
      && r.value[|r.value| - 1] == Terminator
  {
    if !aString.Str? then Err(TypeError) else BroadcastFrame(Utf8.Encode(aString.s))
  }

  /** An encoded broadcast is one whole frame to `_match(27)`, and its
      payload bytes decode back to the string that was sent. */
  lemma GeneratedMessageRoundTrip(s: string)
    requires GenerateBroadcastMessage(Str(s)).Ok?
    ensures Extract(GenerateBroadcastMessage(Str(s)).value, OnlyType(27))
         == Extraction([GenerateBroadcastMessage(Str(s)).value], [])
    ensures var frame := GenerateBroadcastMessage(Str(s)).value;
      Utf8.Decode(frame[5..|frame| - 1]) == Some(s)
  {
    EncodeThenMatch(Utf8.Encode(s));
    Utf8.DecodeEncode(s);
  }

  /** The receive side of a client (`self._buffer` and the methods that
      use it). The serial and BLE subclasses add only the transport. */
  class MicroBlocksBase {
    /** `self._buffer`: bytes received and not yet consumed by `_match`. */
    var buffer: seq<Byte>

    /** Between calls the buffer is what a pass left: empty, or an
        incomplete frame from its marker on. */
    ghost predicate Valid()
      reads this
    {
      Quiescent(buffer)
    }

    /** `self._buffer = bytearray()` in both subclasses' `__init__`. */
    constructor ()
      ensures Valid() && buffer == []
    {
      buffer := [];
    }

    /** `_match(filter)`: one pass over the buffer, which is replaced by
        what the pass keeps. */
    method Match(filter: Filter) returns (frames: seq<seq<Byte>>)
      modifies this
      ensures Extraction(frames, buffer) == Extract(old(buffer), filter)
      ensures Valid()
    {
      var rest;
      frames, rest := ScanFrames(buffer, filter);
      buffer := rest;
      RestIsQuiescentSuffix(old(buffer), filter);
    }

    /** `_decode_broadcast_message(data)`: an empty read changes nothing and
        gives None; otherwise the read is appended, `_match(27)` runs, and
        the frames' texts are joined (None when there were none). A frame
        that does not decode raises after the buffer was consumed. */
    method DecodeBroadcastMessage(data: seq<Byte>) returns (r: Result<Option<string>, PyError>)
      requires Valid()
      modifies this
      ensures Valid()
      ensures data == [] ==> buffer == old(buffer) && r == Ok(None)
      ensures data != [] ==>
        var e := Extract(old(buffer) + data, OnlyType(BroadcastType));
        buffer == e.rest && r == ReceiveOutcome(DecodeParts(e.frames))
    {
      var result: seq<string> := [];
      if data != [] {
        buffer := buffer + data;
        var frames := Match(OnlyType(BroadcastType));
        var parts := DecodeFrames(frames);
        if parts.Err? {
          return Err(parts.error);
        }
        result := parts.value;
      }
      if result == [] {
        r := Ok(None);
      } else {
        r := Ok(Some(Join("", result)));
      }
    }
  }

  // ---------------------------------------------------------------------
  // command

  predicate IsHexDigit(c: char) {
    ('0' <= c <= '9') || ('a' <= c <= 'f')
  }

  /** `uuid.uuid4().hex[:8]`: eight lower-case hex digits. */
  predicate IsHexToken(token: string) {
    |token| == 8 && forall k :: 0 <= k < |token| ==> IsHexDigit(token[k])
  }

  /** `f"python-{token}"` */
  function MessageId(token: string): (id: string)
    requires IsHexToken(token)
    ensures |id| == 15 && id[..7] == "python-" && id[7..] == token && ',' !in id
  {
    "python-" + token
  }

  /** A parameter as `command` renders it: a str wrapped in double quotes
      (nothing escaped), anything else through `str()`. */
  function RenderParameter(p: PyValue): (r: string)
    ensures ',' in r <==> ',' in Text(p)
    ensures |r| == |Text(p)| + if p.Str? then 2 else 0
  {
    if p.Str? then
      var r := "\"" + p.s + "\"";
      assert forall c :: c in r <==> c == '"' || c in p.s by {
        forall c ensures c in r <==> c == '"' || c in p.s {
          if c in p.s {
            var k :| 0 <= k < |p.s| && p.s[k] == c;
            assert r[k + 1] == c;
          }
        }
      }
      r
    else Text(p)
  }

  /** `[callType, msgID, functionName] + parameterList`, each through `str()`. */
  function CallFields(functionName: PyValue, parameterList: seq<PyValue>, callType: PyValue, token: string)
    : seq<string>
    requires IsHexToken(token)
  {
    [Text(callType), MessageId(token), Text(functionName)]
      + seq(|parameterList|, k requires 0 <= k < |parameterList| => RenderParameter(parameterList[k]))
  }

  /** `",".join(...)` of the call fields: the string `command` broadcasts. */
  function CallString(functionName: PyValue, parameterList: seq<PyValue>, callType: PyValue, token: string)
    : (r: string)
    requires IsHexToken(token)
    ensures |Text(callType)| <= |r| && r[..|Text(callType)|] == Text(callType)
    ensures |r| == TotalLength(CallFields(functionName, parameterList, callType, token)) + 2 + |parameterList|
  {
    Join(",", CallFields(functionName, parameterList, callType, token))
  }

  /** No comma inside a field, so the call string splits back into them. */
  predicate CommaFree(functionName: PyValue, parameterList: seq<PyValue>, callType: PyValue) {
    ',' !in Text(callType) && ',' !in Text(functionName)
    && forall k :: 0 <= k < |parameterList| ==> ',' !in Text(parameterList[k])
  }

  /** The call string is `callType,python-<token>,functionName,p1,...`:
      splitting it on commas gives back exactly those fields, with str
      parameters quoted and the others rendered by `str()`. */
  lemma CallStringFields(functionName: PyValue, parameterList: seq<PyValue>, callType: PyValue, token: string)
    requires IsHexToken(token) && CommaFree(functionName, parameterList, callType)
    ensures var fields := Split(CallString(functionName, parameterList, callType, token), ',');
      |fields| == 3 + |parameterList|
      && fields[0] == Text(callType)
      && fields[1] == "python-" + token
      && fields[2] == Text(functionName)
      && forall k :: 0 <= k < |parameterList| ==> fields[3 + k] == RenderParameter(parameterList[k])
  {
    var fields := CallFields(functionName, parameterList, callType, token);
    forall k | 0 <= k < |fields|
      ensures ',' !in fields[k]
    {
      if k >= 3 {
        assert fields[k] == RenderParameter(parameterList[k - 3]);
      }
    }
    SplitJoin(fields, ',');
  }

  /** `command(functionName, parameterList, callType)`: the bytes it hands to
      `sendBroadcast`, a broadcast whose payload is the call string. */
  function Command(functionName: PyValue, parameterList: seq<PyValue>, callType: PyValue, token: string)
    : (r: Result<seq<Byte>, PyError>)
    requires IsHexToken(token)
    ensures r.Ok? <==> |Utf8.Encode(CallString(functionName, parameterList, callType, token))| + 1 < 65536
    ensures r.Err? ==> r.error == ValueError
    ensures r.Ok? ==> |r.value| >= 6 && Extract(r.value, OnlyType(BroadcastType)) == Extraction([r.value], [])
    ensures r.Ok? ==>
      Utf8.Decode(r.value[5..|r.value| - 1]) == Some(CallString(functionName, parameterList, callType, token))
    ensures r.Ok? ==>
      r.value[0] == LongMarker && r.value[1] == BroadcastType && r.value[2] == 0
      && r.value[|r.value| - 1] == Terminator
  {
    var msg := CallString(functionName, parameterList, callType, token);
    var r := GenerateBroadcastMessage(Str(msg));
    if r.Ok? then GeneratedMessageRoundTrip(msg); r else r
  }
}

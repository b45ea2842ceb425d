/** The broadcast codec common to both packages: the type-27 long frame the
    encoder builds around a UTF-8 payload, and the decoding the receive
    methods apply to each matched frame (`msgBytes[4:]`, strict UTF-8,
    NULs removed, results joined). */
module Broadcast {
  import Utf8
  import opened Wrappers
  import opened Values
  import opened Framing

  /** Type byte of an application broadcast. */
  const BroadcastType: Byte := 27
  /** Last byte of every long frame. */
  const Terminator: Byte := 254

  /** `bytearray([251, 27, 0, length % 256, int(length / 256)]) + utf8 + b"\xfe"`
      with `length = len(utf8) + 1`; bytearray raises ValueError once the
      high length byte reaches 256. */
  function BroadcastFrame(utf8: seq<Byte>): (r: Result<seq<Byte>, PyError>)
    ensures r.Err? <==> |utf8| + 1 >= 65536
    ensures r.Err? ==> r.error == ValueError
    ensures r.Ok? ==> |r.value| == |utf8| + 6
    ensures r.Ok? ==> r.value[0] == LongMarker && r.value[1] == BroadcastType && r.value[2] == 0
    ensures r.Ok? ==> LongLength(r.value[3], r.value[4]) == |r.value|
    ensures r.Ok? ==> r.value[5..|r.value| - 1] == utf8 && r.value[|r.value| - 1] == Terminator
  {
    var length := |utf8| + 1;
    if length / 256 >= 256 then Err(ValueError)
    else Ok([LongMarker, BroadcastType, 0, length % 256, length / 256] + utf8 + [Terminator])
  }

  /** A broadcast frame delimits itself: a pass over it followed by any
      bytes returns it whole (when the filter takes type 27) and goes on
      with the bytes after it. */
  lemma BroadcastFrameDelimits(utf8: seq<Byte>, more: seq<Byte>, filter: Filter)
    requires BroadcastFrame(utf8).Ok?
    ensures Extract(BroadcastFrame(utf8).value + more, filter)
         == Prefixed(if Accepts(filter, BroadcastType) then [BroadcastFrame(utf8).value] else [],
                     Extract(more, filter))
  {
    var frame := BroadcastFrame(utf8).value;
    var buf := frame + more;
    assert buf[..|frame|] == frame && buf[|frame|..] == more;
    ExtractTakes(buf, filter, |frame|);
  }

  /** The frame-level round trip: `_match(27)` on a buffer holding only an
      encoded broadcast returns exactly that frame and empties the buffer. */
  lemma EncodeThenMatch(utf8: seq<Byte>)
    requires BroadcastFrame(utf8).Ok?
    ensures Extract(BroadcastFrame(utf8).value, OnlyType(27))
         == Extraction([BroadcastFrame(utf8).value], [])
  {
    BroadcastFrameDelimits(utf8, [], OnlyType(27));
    assert BroadcastFrame(utf8).value + [] == BroadcastFrame(utf8).value;
  }

  /** `msgBytes[4:]`: Python slicing past the end gives nothing. */
  function PayloadAsWritten(msgBytes: seq<Byte>): (r: seq<Byte>)
    ensures |msgBytes| >= 4 ==> |r| == |msgBytes| - 4 && (|r| > 0 ==> r[|r| - 1] == msgBytes[|msgBytes| - 1])
    ensures |msgBytes| < 4 ==> r == []
  {
    if |msgBytes| >= 4 then msgBytes[4..] else []
  }

  /** `.replace("\x00", "")` */
  function StripNul(s: string): (r: string)
    ensures |r| <= |s|
  {
    if s == [] then []
    else if s[0] == 0 as char then StripNul(s[1..])
    else [s[0]] + StripNul(s[1..])
  }

  /** Removing NULs piece by piece is removing them from the whole: every
      other character is kept, in order. */
  lemma {:induction false} StripNulConcat(a: string, b: string)
    ensures StripNul(a + b) == StripNul(a) + StripNul(b)
    decreases |a|
  {
    if a == [] {
      assert a + b == b;
    } else {
      StripNulConcat(a[1..], b);
      StripNulConcatStep(a[0], a[1..], b);
      assert a == [a[0]] + a[1..];
    }
  }

  lemma StripNulConcatStep(head: char, t: string, b: string)
    requires StripNul(t + b) == StripNul(t) + StripNul(b)
    ensures StripNul([head] + t + b) == StripNul([head] + t) + StripNul(b)
  {
    ConsAppend(head, t, b);
    StripNulCons(head, t);
    StripNulCons(head, t + b);
    ConsAppend(head, StripNul(t), StripNul(b));
  }

  lemma ConsAppend(head: char, x: string, y: string)
    ensures [head] + x + y == [head] + (x + y)
  {
  }

  /** No NUL is left. */
  lemma {:induction false} StripNulRemovesAll(s: string)
    ensures forall k :: 0 <= k < |StripNul(s)| ==> StripNul(s)[k] != 0 as char
    decreases |s|
  {
    if s != [] {
      StripNulRemovesAll(s[1..]);
    }
  }

  /** Text without a NUL comes through unchanged. */
  lemma {:induction false} StripNulKeepsPlainText(s: string)
    requires forall k :: 0 <= k < |s| ==> s[k] != 0 as char
    ensures StripNul(s) == s
    decreases |s|
  {
    if s != [] {
      StripNulKeepsPlainText(s[1..]);
      assert [s[0]] + s[1..] == s;
    }
  }

  /** A NUL goes, any other character stays. */
  lemma StripNulChar(c: char)
    ensures StripNul([c]) == if c == 0 as char then [] else [c]
  {
    assert [c][1..] == [];
  }

  lemma StripNulCons(c: char, t: string)
    ensures StripNul([c] + t) == if c == 0 as char then StripNul(t) else [c] + StripNul(t)
  {
    assert ([c] + t)[0] == c && ([c] + t)[1..] == t;
  }

  /** The text one matched frame contributes, or None when the strict
      decode raises UnicodeDecodeError. */
  function FrameText(msgBytes: seq<Byte>): (r: Option<string>)
    ensures r.Some? <==> Utf8.Decode(PayloadAsWritten(msgBytes)).Some?
    ensures r.Some? ==> forall k :: 0 <= k < |r.value| ==> r.value[k] != 0 as char
  {
    match Utf8.Decode(PayloadAsWritten(msgBytes))
    case None => None
    case Some(s) => StripNulRemovesAll(s); Some(StripNul(s))
  }

  /** `done` followed by the texts of `r`, or the error of `r`. */
  function After(done: seq<string>, r: Result<seq<string>, PyError>): Result<seq<string>, PyError> {
    match r
    case Err(e) => Err(e)
    case Ok(ts) => Ok(done + ts)
  }

  lemma AfterNothing(r: Result<seq<string>, PyError>)
    ensures After([], r) == r
  {
    if r.Ok? {
      assert [] + r.value == r.value;
    }
  }

  lemma AfterTwice(done: seq<string>, more: seq<string>, r: Result<seq<string>, PyError>)
    ensures After(done, After(more, r)) == After(done + more, r)
  {
    if r.Ok? {
      assert done + (more + r.value) == (done + more) + r.value;
    }
  }

  /** The texts of `frames` in order, or the error of the first frame that
      does not decode (the exception leaves the loop). */
  function DecodeParts(frames: seq<seq<Byte>>): (r: Result<seq<string>, PyError>)
    ensures r.Err? ==> r.error == UnicodeDecodeError
    ensures r.Ok? ==> |r.value| == |frames|
    decreases |frames|
  {
    if frames == [] then Ok([])
    else match FrameText(frames[0])
      case None => Err(UnicodeDecodeError)
      case Some(t) => After([t], DecodeParts(frames[1..]))
  }

  /** The decode loop fails exactly when some frame does not decode, and
      otherwise yields one text per frame, in frame order. */
  lemma {:induction false} DecodePartsMeaning(frames: seq<seq<Byte>>)
    ensures DecodeParts(frames).Ok? <==> forall k :: 0 <= k < |frames| ==> FrameText(frames[k]).Some?
    ensures DecodeParts(frames).Err? ==> DecodeParts(frames).error == UnicodeDecodeError
    ensures DecodeParts(frames).Ok? ==>
      |DecodeParts(frames).value| == |frames|
      && forall k :: 0 <= k < |frames| ==> DecodeParts(frames).value[k] == FrameText(frames[k]).value
    decreases |frames|
  {
    if frames != [] {
      DecodePartsMeaning(frames[1..]);
      if FrameText(frames[0]).None? {
        assert DecodeParts(frames) == Err(UnicodeDecodeError);
      } else if DecodeParts(frames[1..]).Err? {
        DecodePartsFailsLater(frames);
      } else {
        DecodePartsSucceeds(frames);
      }
    }
  }

  /** A later frame that does not decode makes the whole decode fail. */
  lemma DecodePartsFailsLater(frames: seq<seq<Byte>>)
    requires frames != [] && FrameText(frames[0]).Some?
    requires DecodeParts(frames[1..]).Err? && DecodeParts(frames[1..]).error == UnicodeDecodeError
    requires !forall k :: 0 <= k < |frames[1..]| ==> FrameText(frames[1..][k]).Some?
    ensures DecodeParts(frames) == Err(UnicodeDecodeError)
    ensures !forall k :: 0 <= k < |frames| ==> FrameText(frames[k]).Some?
  {
    var j :| 0 <= j < |frames[1..]| && FrameText(frames[1..][j]).None?;
    assert FrameText(frames[j + 1]).None?;
  }

  /** When every later frame decodes, the first text goes in front. */
  lemma DecodePartsSucceeds(frames: seq<seq<Byte>>)
    requires frames != [] && FrameText(frames[0]).Some?
    requires DecodeParts(frames[1..]).Ok?
    requires forall k :: 0 <= k < |frames[1..]| ==> FrameText(frames[1..][k]).Some?
    requires |DecodeParts(frames[1..]).value| == |frames[1..]|
    requires forall k :: 0 <= k < |frames[1..]| ==>
      DecodeParts(frames[1..]).value[k] == FrameText(frames[1..][k]).value
    ensures DecodeParts(frames).Ok? && |DecodeParts(frames).value| == |frames|
    ensures forall k :: 0 <= k < |frames| ==> FrameText(frames[k]).Some?
    ensures forall k :: 0 <= k < |frames| ==> DecodeParts(frames).value[k] == FrameText(frames[k]).value
  {
    var t, later := FrameText(frames[0]).value, DecodeParts(frames[1..]).value;
    assert DecodeParts(frames) == Ok([t] + later);
    forall k | 1 <= k < |frames|
      ensures FrameText(frames[k]).Some?
      ensures ([t] + later)[k] == FrameText(frames[k]).value
    {
      assert frames[1..][k - 1] == frames[k];
      ConsIndex(t, later, k);
    }
  }

  lemma ConsIndex(t: string, later: seq<string>, k: nat)
    requires 1 <= k <= |later|
    ensures ([t] + later)[k] == later[k - 1]
  {
  }

  /** The three ways the decode loop can go at frame `i`, one lemma each. */
  lemma DecodeKeepsGoing(frames: seq<seq<Byte>>, i: nat, result: seq<string>, t: string)
    requires i < |frames| && FrameText(frames[i]) == Some(t)
    requires DecodeParts(frames) == After(result, DecodeParts(frames[i..]))
    ensures DecodeParts(frames) == After(result + [t], DecodeParts(frames[i + 1..]))
  {
    assert frames[i..][1..] == frames[i + 1..];
    AfterTwice(result, [t], DecodeParts(frames[i + 1..]));
  }

  lemma DecodeStops(frames: seq<seq<Byte>>, i: nat, result: seq<string>)
    requires i < |frames| && FrameText(frames[i]).None?
    requires DecodeParts(frames) == After(result, DecodeParts(frames[i..]))
    ensures DecodeParts(frames) == Err(UnicodeDecodeError)
  {
  }

  lemma DecodeEnds(frames: seq<seq<Byte>>, result: seq<string>)
    requires DecodeParts(frames) == After(result, DecodeParts(frames[|frames|..]))
    ensures DecodeParts(frames) == Ok(result)
  {
    assert frames[|frames|..] == [];
    assert result + [] == result;
  }

  /** `for msgBytes in frames: result.append(msgBytes[4:].decode("utf-8").replace("\x00", ""))` */
  method DecodeFrames(frames: seq<seq<Byte>>) returns (r: Result<seq<string>, PyError>)
    ensures r == DecodeParts(frames)
  {
    var result: seq<string> := [];
    var i := 0;
    AfterNothing(DecodeParts(frames));
    assert frames[0..] == frames;
    while i < |frames|
      invariant 0 <= i <= |frames|
      invariant DecodeParts(frames) == After(result, DecodeParts(frames[i..]))
    {
      var text := Utf8.Decode(PayloadAsWritten(frames[i]));
      if text.None? {
        DecodeStops(frames, i, result);
        return Err(UnicodeDecodeError);
      }
      DecodeKeepsGoing(frames, i, result, StripNul(text.value));
      result := result + [StripNul(text.value)];
      i := i + 1;
    }
    DecodeEnds(frames, result);
    r := Ok(result);
  }

  /** What a receive call returns once the frames are decoded: None when
      the list of texts is empty, else the texts joined. */
  function ReceiveOutcome(parts: Result<seq<string>, PyError>): (r: Result<Option<string>, PyError>)
    ensures r.Err? <==> parts.Err?
    ensures r.Err? ==> r.error == parts.error
    ensures r == Ok(None) <==> parts == Ok([])
    ensures r.Ok? && r.value.Some? ==> |r.value.value| == TotalLength(parts.value)
  {
    match parts
    case Err(e) => Err(e)
    case Ok(ts) => if ts == [] then Ok(None) else Ok(Some(Join("", ts)))
  }

  /** A receive call answers None exactly when no type-27 frame was
      matched: a frame whose text is empty still yields Some(""). */
  lemma ReceiveNoneIff(frames: seq<seq<Byte>>)
    ensures ReceiveOutcome(DecodeParts(frames)) == Ok(None) <==> frames == []
  {
    DecodePartsMeaning(frames);
  }

  // ---------------------------------------------------------------------
  // The payload offset

  /** Every complete long frame ending in the terminator makes the decode
      as written raise: `msgBytes[4:]` keeps the 0xFE terminator, which is
      never part of well-formed UTF-8. */
  lemma TerminatedFrameRejected(msgBytes: seq<Byte>)
    requires |msgBytes| >= 5 && msgBytes[|msgBytes| - 1] == Terminator
    ensures FrameText(msgBytes) == None
    ensures DecodeParts([msgBytes]) == Err(UnicodeDecodeError)
  {
    var payload := PayloadAsWritten(msgBytes);
    assert payload[|payload| - 1] == Terminator;
    Utf8.HighByteRejected(payload, |payload| - 1);
  }

  /** In particular the decoder refuses what the encoder produces, for
      every message. */
  lemma OwnBroadcastRejected(s: string)
    requires BroadcastFrame(Utf8.Encode(s)).Ok?
    ensures DecodeParts(Extract(BroadcastFrame(Utf8.Encode(s)).value, OnlyType(27)).frames)
         == Err(UnicodeDecodeError)
  {
    EncodeThenMatch(Utf8.Encode(s));
    TerminatedFrameRejected(BroadcastFrame(Utf8.Encode(s)).value);
  }

  /** The concrete case of the message "hi". */
  lemma HiBroadcastRejected()
    ensures BroadcastFrame(Utf8.Encode("hi")) == Ok([251, 27, 0, 3, 0, 104, 105, 254])
    ensures FrameText([251, 27, 0, 3, 0, 104, 105, 254]) == None
  {
    HiEncoding();
    var header: seq<Byte> := [251, 27, 0, 3, 0];
    assert header + [104, 105] + [254] == [251, 27, 0, 3, 0, 104, 105, 254];
    TerminatedFrameRejected([251, 27, 0, 3, 0, 104, 105, 254]);
  }

  /** "hi" is ASCII: its UTF-8 bytes are its code points. */
  lemma HiEncoding()
    ensures Utf8.Encode("hi") == [104, 105]
  {
    assert "hi"[1..] == "i" && "i"[1..] == [];
    assert Utf8.Encode("i") == [105];
  }

  /** The payload the frame layout evidently intends: the bytes between the
      5-byte header and the terminator of a long frame. */
  function PayloadIntended(msgBytes: seq<Byte>): seq<Byte> {
    if |msgBytes| >= 6 then msgBytes[5..|msgBytes| - 1] else []
  }

  function FrameTextIntended(msgBytes: seq<Byte>): Option<string> {
    match Utf8.Decode(PayloadIntended(msgBytes))
    case None => None
    case Some(s) => Some(StripNul(s))
  }

  function DecodePartsIntended(frames: seq<seq<Byte>>): Result<seq<string>, PyError>
    decreases |frames|
  {
    if frames == [] then Ok([])
    else match FrameTextIntended(frames[0])
      case None => Err(UnicodeDecodeError)
      case Some(t) => After([t], DecodePartsIntended(frames[1..]))
  }

  /** With the intended offsets the codec round-trips: an empty buffer that
      receives the encoding of `s` yields `s` without its NULs and is empty
      again. */
  lemma IntendedRoundTrip(s: string)
    requires BroadcastFrame(Utf8.Encode(s)).Ok?
    ensures Extract(BroadcastFrame(Utf8.Encode(s)).value, OnlyType(27)).rest == []
    ensures ReceiveOutcome(DecodePartsIntended(
              Extract(BroadcastFrame(Utf8.Encode(s)).value, OnlyType(27)).frames))
         == Ok(Some(StripNul(s)))
  {
    var frame := BroadcastFrame(Utf8.Encode(s)).value;
    EncodeThenMatch(Utf8.Encode(s));
    Utf8.DecodeEncode(s);
    assert PayloadIntended(frame) == Utf8.Encode(s);
    assert FrameTextIntended(frame) == Some(StripNul(s));
    var frames: seq<seq<Byte>> := [frame];
    assert frames[1..] == [];
    assert DecodePartsIntended(frames) == Ok([StripNul(s)] + []);
    assert [StripNul(s)] + [] == [StripNul(s)];
  }
}

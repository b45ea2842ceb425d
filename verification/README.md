# MicroBlocks messaging: a Dafny model of the wire framing

This project models the host side of the MicroBlocks messaging library. The
library talks to a board that runs MicroBlocks, over a serial port or over
Bluetooth LE. The model covers the part of the library that handles bytes,
in both of its packages (`microblocks` and `microblocks_messaging_library`):

- **The frame matcher `_match`.** It scans the receive buffer. It skips
  bytes until it finds a 250 or 251 marker. A 250 starts a 3-byte short
  frame. A 251 starts a long frame of `5 + 256*b[4] + b[3]` bytes. Each
  complete frame whose type byte passes the filter is returned, in order.
  At the first incomplete frame the matcher stops and keeps the buffer from
  that frame's marker onward.
- **The broadcast encoder.** It builds the type-27 long frame
  `[251, 27, 0, L%256, L/256] ++ utf8 ++ [254]`, where `L = |utf8| + 1`.
- **The broadcast decoder.** It appends the bytes just read to the buffer
  and runs `_match(27)`. It decodes `msgBytes[4:]` of each frame as UTF-8,
  removes NUL characters and joins the texts. It returns None when no
  frame matched.
- **The `command` call string.** It has the form
  `callType,python-<8 hex>,functionName,p1,...`.

Layout:

| file | module | what it holds |
|---|---|---|
| `wrappers.dfy` | `Wrappers` | `Option`, `Result` |
| `utf8.dfy` | `Utf8` | the strict UTF-8 codec that `str.encode` / `bytes.decode` provide |
| `values.dfy` | `Values` | Python values and exceptions, `str()`, `str.join`, `str.split` |
| `framing.dfy` | `Framing` | `Extract` (one `_match` pass as a function), `ScanFrames` (the pass with the source's loops), and the lemmas about a pass |
| `broadcast.dfy` | `Broadcast` | the broadcast frame layout, per-frame payload decoding (loop and specification), and the payload-offset finding |
| `microblocks.dfy` | `MicroBlocks` | class `MicroBlocksBase` (`_buffer`, `_match`, `_decode_broadcast_message`), `_generate_broadcast_message`, `command` |
| `messaging_library.dfy` | `MessagingLibrary` | class `MicroblocksMessage` (`_buffer`, `_match`, `receiveBroadcasts`), the encoding inside `sendBroadcast` |

The two packages contain the same `_match` loop. Both classes' `Match`
methods call the one shared loop `Framing.ScanFrames` and then assign the
bytes it keeps to `buffer`. Each class keeps `Valid()` as its invariant:
between calls the buffer is empty or holds an incomplete frame starting at
its marker (`Framing.Quiescent`).

Transport reads become a `data` parameter. Transport writes become
returned bytes. The random part of the message id becomes a `token`
parameter.

## Model

| member | source | states |
|---|---|---|
| `Framing.ScanFrames` | microblocks/__init__.py:44-76 | the skip loop, the short- and long-frame cases and the three early returns compute exactly one `Extract` pass: the frames returned and the buffer kept |
| `Framing.CompleteLength` | microblocks/__init__.py:61-70 | a frame at a marker is complete exactly when a 250 has 3 bytes available, or a 251 has 5 bytes and its declared `5+256*b[4]+b[3]` bytes; a complete prefix is a well-formed frame |
| `Framing.FramesWellFormed` | microblocks/__init__.py:61-73 | every returned frame is a 3-byte frame starting with 250, or starts with 251 and is exactly as long as its length bytes say; its type byte passes the filter |
| `Framing.RestIsQuiescentSuffix` | microblocks/__init__.py:54-76 | the new buffer is a suffix of the old one; it is empty or starts at a 250/251 marker whose frame is incomplete, so leading non-marker bytes are dropped |
| `Framing.QuiescentIffNoProgress` | microblocks/__init__.py:65-76 | a pass returns no frame and leaves the buffer unchanged if and only if the buffer is empty or holds only an incomplete frame from its marker |
| `Framing.ExtractIdempotent` | microblocks/__init__.py:44-76 | a second pass with no new bytes returns `[]` and changes nothing, whatever filter either pass uses |
| `Framing.FilterSelects` | microblocks/__init__.py:61-73 | the kept buffer does not depend on the filter, and the frames a filtered pass returns are the accepted frames of a `"*"` pass, in the same order |
| `Framing.LayoutAccounts` | microblocks/__init__.py:54-76 | with filter `"*"`, the old buffer is the skipped non-marker bytes interleaved with the returned frames, in order, followed by the kept buffer: nothing is reordered, duplicated or lost |
| `Framing.ExtractResumes` | microblocks/__init__.py:53-76 | a pass over `a`, then a pass over the kept bytes with `b` appended, gives the same concatenated frames and the same final buffer as one pass over `a ++ b` |
| `Framing.ChunkedEqualsWhole` | microblocks/__init__.py:35-37 | starting from a valid buffer, feeding any list of reads one at a time (empty reads skipped) gives the frames and buffer of one pass over their concatenation |
| `MicroBlocks.MicroBlocksBase.constructor` | microblocks/__init__.py:104 | a new client's buffer is empty, so the class invariant holds |
| `MicroBlocks.MicroBlocksBase.Match` | microblocks/__init__.py:44-76 | `_match` returns the frames of one pass and replaces the buffer by what the pass keeps; the buffer is then empty or an incomplete frame at a marker |
| `MicroBlocks.MicroBlocksBase.DecodeBroadcastMessage` | microblocks/__init__.py:33-42 | an empty read leaves the buffer alone and returns None; otherwise the buffer becomes what `_match(27)` keeps of old buffer ++ data, and the result is the joined frame texts, None when no frame matched, or UnicodeDecodeError |
| `MicroBlocks.GenerateBroadcastMessage` | microblocks/__init__.py:23-31 | a non-str raises TypeError; a str whose UTF-8 form has 65535 bytes or more raises ValueError; otherwise the output is `[251,27,0,L%256,L/256] ++ utf8 ++ [254]` with `L = |utf8|+1`, `|utf8|+6` bytes in all |
| `MicroBlocks.GeneratedMessageRoundTrip` | microblocks/__init__.py:26-30 | `_match(27)` on a buffer holding only an encoded broadcast returns exactly that frame and leaves the buffer empty; the bytes between header and terminator decode back to the string sent |
| `MicroBlocks.MessageId` | microblocks/__init__.py:233 | the id is `python-` followed by the 8-hex-digit token: 15 characters, no comma |
| `MicroBlocks.RenderParameter` | microblocks/__init__.py:234 | the rendered parameter contains a comma exactly when `str()` of the parameter does: the quotes wrapped around a str add two characters and no separator |
| `MicroBlocks.CallString` | microblocks/__init__.py:235-236 | the call string starts with `str(callType)`, and its length is the fields' total length plus one comma between each pair of the `3 + len(parameterList)` fields |
| `MicroBlocks.CallStringFields` | microblocks/__init__.py:235-236 | when no field contains a comma, splitting the call string on commas gives `callType`, `python-<token>`, `functionName` and then each rendered parameter, in order |
| `MicroBlocks.Command` | microblocks/__init__.py:231-238 | `command` broadcasts one type-27 frame that `_match(27)` returns whole, and whose payload decodes to the call string; it succeeds exactly when the UTF-8 call string plus one is below 65536 bytes, and otherwise fails with ValueError; the frame starts 251, 27, 0 and ends with 254 |
| `MessagingLibrary.SendBroadcast` | microblocks_messaging_library/__init__.py:26-32 | with no explicit type check, a non-str fails with AttributeError; otherwise the written bytes are `[251,27,0,L%256,L/256] ++ utf8 ++ [254]` with `L = |utf8|+1`, or ValueError when `L/256` reaches 256 |
| `MessagingLibrary.SentBroadcastRejected` | microblocks_messaging_library/__init__.py:39-40 | what `sendBroadcast` writes is one whole frame to a fresh receiver's `_match(27)`, yet `receiveBroadcasts` raises UnicodeDecodeError on it |
| `MessagingLibrary.MicroblocksMessage.constructor` | microblocks_messaging_library/__init__.py:13 | a new client's buffer is empty, so the class invariant holds |
| `MessagingLibrary.MicroblocksMessage.Match` | microblocks_messaging_library/__init__.py:46-78 | `_match` returns the frames of one pass and replaces the buffer by what the pass keeps; the buffer is then empty or an incomplete frame at a marker |
| `MessagingLibrary.MicroblocksMessage.ReceiveBroadcasts` | microblocks_messaging_library/__init__.py:34-44 | an empty read returns None and changes nothing; otherwise the buffer becomes what `_match(27)` keeps of old buffer ++ data, and the result is the joined frame texts, None when no frame matched, or UnicodeDecodeError |
| `Broadcast.BroadcastFrame` | microblocks_messaging_library/__init__.py:28-30 | the frame is 6 bytes longer than the payload; it starts 251, 27, 0; its length bytes give its own total length; the payload follows, then 254; ValueError exactly when `L >= 65536` |
| `Broadcast.BroadcastFrameDelimits` | microblocks/__init__.py:66-73 | a broadcast frame delimits itself: a pass over it and any following bytes returns it whole (when the filter takes type 27) and goes on with the bytes after it |
| `Broadcast.EncodeThenMatch` | microblocks/__init__.py:66-73 | `_match(27)` on an encoded broadcast alone returns that one frame and an empty buffer, because `256*(L/256)+L%256 = L` and `end = 5+L` |
| `Broadcast.StripNul` | microblocks/__init__.py:38 | `.replace("\x00", "")` never lengthens the text |
| `Broadcast.StripNulConcat` | microblocks/__init__.py:38 | removing NULs from `a + b` is removing them from `a` and from `b` and concatenating; with `StripNulChar` this fixes the result: every non-NUL character is kept, in order |
| `Broadcast.StripNulChar` | microblocks/__init__.py:38 | a NUL character is removed and any other character is kept |
| `Broadcast.StripNulRemovesAll` | microblocks/__init__.py:38 | no NUL is left in the result |
| `Broadcast.StripNulKeepsPlainText` | microblocks/__init__.py:38 | a text with no NUL comes through unchanged |
| `Broadcast.PayloadAsWritten` | microblocks/__init__.py:38 | `msgBytes[4:]`: the bytes after the first four (so the high length byte comes first), ending with the frame's last byte; nothing for a frame shorter than 4 bytes |
| `Broadcast.FrameText` | microblocks/__init__.py:38 | a frame yields a text exactly when `msgBytes[4:]` decodes strictly, and that text holds no NUL |
| `Broadcast.DecodeParts` | microblocks/__init__.py:36-38 | the loop over the matched frames fails only with UnicodeDecodeError, and otherwise yields one text per frame |
| `Broadcast.ReceiveOutcome` | microblocks/__init__.py:39-42 | an error passes through unchanged; the result is None exactly when there are no texts; otherwise it is `"".join` of them, as long as all the texts together |
| `Broadcast.DecodeFrames` | microblocks/__init__.py:37-38 | the per-frame loop decodes the frames in order and stops with UnicodeDecodeError at the first frame that does not decode, as `DecodeParts` specifies |
| `Broadcast.DecodePartsMeaning` | microblocks/__init__.py:37-38 | decoding fails if and only if some frame's `msgBytes[4:]` is not valid UTF-8; otherwise there is one text per frame, in frame order, and each is that frame's NUL-stripped decode |
| `Broadcast.ReceiveNoneIff` | microblocks/__init__.py:39-42 | a receive returns None if and only if no type-27 frame was matched; a frame whose text is empty still gives `""` |
| `Broadcast.TerminatedFrameRejected` | microblocks/__init__.py:38 | every long frame ending in the 254 terminator makes `msgBytes[4:].decode("utf-8")` raise |
| `Broadcast.OwnBroadcastRejected` | microblocks/__init__.py:29-38 | for every message, the decoder raises on the frame the encoder produces |
| `Broadcast.HiBroadcastRejected` | microblocks/__init__.py:29-38 | the message "hi" encodes to `[251,27,0,3,0,104,105,254]`, and that frame does not decode |
| `Broadcast.IntendedRoundTrip` | microblocks/__init__.py:37-42 | with the payload read from byte 5 up to the terminator, receiving the encoding of `s` into an empty buffer yields `s` without its NULs and leaves the buffer empty |
| `Utf8.Decode` | microblocks/__init__.py:38 | the strict `.decode("utf-8")`: a decoded text is never longer than its bytes and is non-empty when the bytes are; which bytes it accepts is fixed by `DecodeEncode` and `DecodeIsStrict` |
| `Framing.Extract` | microblocks/__init__.py:44-76 | one `_match` pass as a recursive function: skip a non-marker byte, stop at an incomplete frame keeping it from its marker on, or take a complete frame (returning it when its type byte passes the filter) and continue after it; its properties are the `Framing` lemmas above |
| `Utf8.Encode` | microblocks/__init__.py:26 | `str.encode("utf-8")` never produces a byte of 0xF8 or more, so never the 254 terminator |
| `Utf8.DecodeEncode` | microblocks/__init__.py:38 | a strict decode of the UTF-8 encoding of a string gives back that string |
| `Utf8.DecodeIsStrict` | microblocks/__init__.py:38 | whatever the strict decoder accepts is exactly the encoding of the text it returns |
| `Utf8.HighByteRejected` | microblocks/__init__.py:38 | a byte sequence containing a byte of 0xF8 or more (such as 254) never decodes |
| `Values.Text` | microblocks/__init__.py:236 | `str()` of a non-str is non-empty and has no comma; booleans render as `True` / `False` |
| `Values.IntTextRoundTrip` | microblocks/__init__.py:236 | `str()` of an int reads back as the same int |
| `Values.Join` | microblocks/__init__.py:236 | `sep.join(parts)` starts with the first part and is as long as all the parts plus one separator between each neighbouring pair |
| `Values.SplitJoin` | microblocks/__init__.py:236 | splitting `",".join(parts)` on commas gives back `parts` when no part contains a comma |

## Left out

- Transport: `connect`, `disconnect`, `ser.read` and `ser.write`, BLE scanning, `discover`, `MicroBlocksIDEService`, the `connection.connected` checks and `__del__`. These are calls into pyserial and adafruit_ble. The bytes read are a parameter, and the bytes to write are returned.
- The subclasses' `receiveBroadcasts` and `sendBroadcast` (microblocks/__init__.py:118-124, 200-229), and `send` / `receive` (78-82). They only pass transport bytes to or from the modelled encoder and decoder, or delegate to them.
- `_processReceiveBroadcasts`, `loopForever` and `loopStart`. They are an endless loop and a thread that call the decoder and a user callback.
- `uuid.uuid4()`. It is random. `MessageId` takes the 8-hex-digit token as a parameter.
- `command`'s `assert type(parameterList) == list`. The parameter list is typed as a sequence, so the AssertionError path is not represented.
- `Values.Text`: models `str()` for str, int, bool and None only. Floats and other objects are not modelled.
- `Framing.Accepts`: only the filter `"*"` and integer filters are represented. A filter of another type that compares equal to an int (`27.0`, or `True` for type 1) would select frames through `filter == buf[i + 1]`, and is not modelled.
- `MicroBlocks.Command`: the default `callType="call"` is not represented. Every call passes `callType` explicitly.
- `MicroBlocks.GenerateBroadcastMessage`: does not model the UnicodeEncodeError that a Python string with a lone surrogate raises, because a Dafny `char` is always a Unicode scalar value. The same holds for `MessagingLibrary.SendBroadcast`.
- `int(length / 256)` goes through a float in Python. It is modelled as integer division, which gives the same value for every length below 2^53.
- The UTF-8 codec follows the Unicode standard's definition of well-formed UTF-8, which is what a strict decoder accepts. Error positions and messages are not modelled.
- `debug` (an IPython shell) and `setup.py` packaging.
- The code has no request/response correlation, timeouts or `"[response]"` matching: `command` only sends. `str()` renders booleans `True`/`False`. A frame that fails to decode raises; it is not skipped. The terminator is not removed before decoding.

## Findings

| source | as written | input that shows it | evidently intended | confidence | as-written member | corrected member |
|---|---|---|---|---|---|---|
| microblocks/__init__.py:38 | each frame's text is `msgBytes[4:].decode("utf-8")`, a slice that starts at the high length byte and ends with the 254 terminator | the encoder's own frame for "hi", `[251,27,0,3,0,104,105,254]`: `[0,104,105,254]` is not UTF-8, so the decode raises UnicodeDecodeError | decode `msgBytes[5:-1]`, the bytes between the 5-byte header and the terminator, so that decoding an encoded message gives it back | high, not executed | `Broadcast.OwnBroadcastRejected` | `Broadcast.IntendedRoundTrip` |
| microblocks_messaging_library/__init__.py:40 | the same `msgBytes[4:]` slice in `receiveBroadcasts` | any string `s` sent by `sendBroadcast`: its frame is matched whole, then the decode raises | the same `msgBytes[5:-1]` slice | high, not executed | `MessagingLibrary.SentBroadcastRejected` | `Broadcast.IntendedRoundTrip` |

The two classes keep the code as written: their receive methods raise on a
well-formed broadcast. The intended decoding is given by
`Broadcast.DecodePartsIntended`, and `Broadcast.IntendedRoundTrip` proves
the round trip for it. The slice also leaks the high length byte into the
text: it is 0 for short messages, and the NUL stripping then removes it.
From 255 payload bytes on, the byte is `L/256`: a control character while
`L/256 <= 31`, a printable ASCII character (or DEL) up to 127, and a
non-ASCII byte beyond that. In every case the terminator still makes the
decode raise.

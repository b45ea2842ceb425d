/** The frame matcher `_match` shared by both packages: it scans the
    accumulated receive buffer for 250/251 markers, returns the complete
    frames whose type byte passes the filter, and keeps the buffer from the
    first incomplete frame onward.

    `Extract` is the specification of one pass; `ScanFrames` is the pass
    itself, with the source's nested loops; the lemmas state what a pass
    guarantees (frame shape, what is kept, what is dropped, idempotence and
    resumability over chunked input). */
module Framing {
  import Utf8
  import opened Wrappers

  type Byte = Utf8.Byte

  /** First byte of a 3-byte short frame. */
  const ShortMarker: Byte := 250
  /** First byte of a long frame `[251, type, _, lenLo, lenHi, ...]`. */
  const LongMarker: Byte := 251

  /** The `filter` argument of `_match`: `"*"` or one type byte. */
  datatype Filter = AnyType | OnlyType(tag: int)

  /** `filter == "*" or filter == buf[i + 1]` */
  predicate Accepts(filter: Filter, tag: Byte) {
    filter.AnyType? || filter.tag == tag
  }

  predicate IsMarker(b: Byte) {
    b == ShortMarker || b == LongMarker
  }

  /** Total length a long frame declares in its bytes 3 and 4. */
  function LongLength(lenLo: Byte, lenHi: Byte): nat {
    5 + 256 * lenHi + lenLo
  }

  /** A frame as `_match` returns it. */
  predicate IsFrame(f: seq<Byte>) {
    (|f| == 3 && f[0] == ShortMarker)
    || (|f| >= 5 && f[0] == LongMarker && |f| == LongLength(f[3], f[4]))
  }

  /** The length of the frame starting at the marker `buf[0]`, when all of
      it has arrived; None when it is still incomplete. */
  function CompleteLength(buf: seq<Byte>): (r: Option<nat>)
    requires buf != [] && IsMarker(buf[0])
    ensures r.Some? ==> 3 <= r.value <= |buf| && IsFrame(buf[..r.value])
    ensures r.Some? ==> r.value == if buf[0] == ShortMarker then 3 else LongLength(buf[3], buf[4])
    ensures r.None? <==>
      (buf[0] == ShortMarker && |buf| < 3)
      || (buf[0] == LongMarker && (|buf| < 5 || LongLength(buf[3], buf[4]) > |buf|))
  {
    if buf[0] == ShortMarker && |buf| >= 3 then Some(3)
    else if buf[0] == LongMarker && |buf| >= 5 && LongLength(buf[3], buf[4]) <= |buf| then
      Some(LongLength(buf[3], buf[4]))
    else None
  }

  /** What one pass produces: the frames returned and the new buffer. */
  datatype Extraction = Extraction(frames: seq<seq<Byte>>, rest: seq<Byte>)

  /** `frames` found first, then what `e` found. */
  function Prefixed(frames: seq<seq<Byte>>, e: Extraction): Extraction {
    Extraction(frames + e.frames, e.rest)
  }

  /** One pass of `_match(filter)` over `buf`. */
  function Extract(buf: seq<Byte>, filter: Filter): Extraction
    decreases |buf|
  {
    if buf == [] then Extraction([], [])
    else if !IsMarker(buf[0]) then Extract(buf[1..], filter)
    else match CompleteLength(buf)
      case None => Extraction([], buf)
      case Some(n) =>
        var tail := Extract(buf[n..], filter);
        if Accepts(filter, buf[1]) then Prefixed([buf[..n]], tail) else tail
  }

  /** A buffer no pass can shrink: empty, or an incomplete frame at a marker. */
  predicate Quiescent(buf: seq<Byte>) {
    buf == [] || (IsMarker(buf[0]) && CompleteLength(buf).None?)
  }

  /** The three ways a pass can go at the head of `s`, one lemma each, so
      that the loop below can take one step at a time. */
  lemma ExtractSkips(s: seq<Byte>, filter: Filter)
    requires s != [] && !IsMarker(s[0])
    ensures Extract(s, filter) == Extract(s[1..], filter)
  {
  }

  lemma ExtractStops(s: seq<Byte>, filter: Filter)
    requires s != [] && IsMarker(s[0]) && CompleteLength(s).None?
    ensures Extract(s, filter) == Extraction([], s)
  {
  }

  lemma ExtractTakes(s: seq<Byte>, filter: Filter, n: nat)
    requires s != [] && IsMarker(s[0]) && CompleteLength(s) == Some(n)
    ensures Extract(s, filter)
         == Prefixed(if Accepts(filter, s[1]) then [s[..n]] else [], Extract(s[n..], filter))
  {
    var tail := Extract(s[n..], filter);
    assert [] + tail.frames == tail.frames;
  }

  lemma PrefixedTwice(a: seq<seq<Byte>>, b: seq<seq<Byte>>, e: Extraction)
    ensures Prefixed(a, Prefixed(b, e)) == Prefixed(a + b, e)
  {
    assert a + (b + e.frames) == (a + b) + e.frames;
  }

  /** The loop invariant of `ScanFrames`: the frames found so far, then
      whatever a pass from index `i` finds, make up the whole pass. */
  predicate ScannedUpTo(buf: seq<Byte>, filter: Filter, frames: seq<seq<Byte>>, i: nat)
    requires i <= |buf|
  {
    Extract(buf, filter) == Prefixed(frames, Extract(buf[i..], filter))
  }

  lemma SkipKeepsScan(buf: seq<Byte>, filter: Filter, frames: seq<seq<Byte>>, i: nat)
    requires i < |buf| && !IsMarker(buf[i]) && ScannedUpTo(buf, filter, frames, i)
    ensures ScannedUpTo(buf, filter, frames, i + 1)
  {
    ExtractSkips(buf[i..], filter);
    assert buf[i..][1..] == buf[i + 1..];
  }

  /** A run of non-marker bytes is skipped as a whole. */
  lemma {:induction false} SkipRunKeepsScan(buf: seq<Byte>, filter: Filter, frames: seq<seq<Byte>>,
                                            i: nat, j: nat)
    requires i <= j <= |buf| && ScannedUpTo(buf, filter, frames, i)
    requires forall k :: i <= k < j ==> !IsMarker(buf[k])
    ensures ScannedUpTo(buf, filter, frames, j)
    decreases j - i
  {
    if i < j {
      SkipKeepsScan(buf, filter, frames, i);
      SkipRunKeepsScan(buf, filter, frames, i + 1, j);
    }
  }

  lemma TakeKeepsScan(buf: seq<Byte>, filter: Filter, frames: seq<seq<Byte>>, i: nat, end: nat)
    requires i < end <= |buf| && IsMarker(buf[i]) && CompleteLength(buf[i..]) == Some(end - i)
    requires ScannedUpTo(buf, filter, frames, i)
    ensures ScannedUpTo(buf, filter,
      frames + (if Accepts(filter, buf[i + 1]) then [buf[i..end]] else []), end)
  {
    var s := buf[i..];
    var n := end - i;
    ExtractTakes(s, filter, n);
    assert s[n..] == buf[end..] && s[..n] == buf[i..end] && s[1] == buf[i + 1];
    PrefixedTwice(frames, if Accepts(filter, buf[i + 1]) then [buf[i..end]] else [],
                  Extract(buf[end..], filter));
  }

  lemma StopEndsScan(buf: seq<Byte>, filter: Filter, frames: seq<seq<Byte>>, i: nat)
    requires i <= |buf| && ScannedUpTo(buf, filter, frames, i)
    requires i == |buf| || (IsMarker(buf[i]) && CompleteLength(buf[i..]).None?)
    ensures Extract(buf, filter) == Extraction(frames, buf[i..])
  {
    if i == |buf| {
      assert buf[i..] == [];
      assert frames + [] == frames;
    } else {
      ExtractStops(buf[i..], filter);
      assert frames + [] == frames;
    }
  }

  /** `CompleteLength` of the buffer from a marker at index `i`, read off
      the bytes of `buf` themselves. */
  lemma CompleteLengthAt(buf: seq<Byte>, i: nat)
    requires i < |buf| && IsMarker(buf[i])
    ensures buf[i] == ShortMarker ==>
      CompleteLength(buf[i..]) == if |buf| - i >= 3 then Some(3) else None
    ensures buf[i] == LongMarker && |buf| - i < 5 ==> CompleteLength(buf[i..]).None?
    ensures buf[i] == LongMarker && |buf| - i >= 5 ==>
      CompleteLength(buf[i..])
      == if i + LongLength(buf[i + 3], buf[i + 4]) <= |buf|
         then Some(LongLength(buf[i + 3], buf[i + 4])) else None
  {
    var s := buf[i..];
    assert s[0] == buf[i];
    if |s| >= 5 {
      assert s[3] == buf[i + 3] && s[4] == buf[i + 4];
    }
  }

  /** `_match` itself: the skip loop, the short and long frame cases and the
      three exits that keep the buffer from index `i`. */
  method ScanFrames(buf: seq<Byte>, filter: Filter) returns (frames: seq<seq<Byte>>, rest: seq<Byte>)
    ensures Extraction(frames, rest) == Extract(buf, filter)
  {
    frames := [];
    var length := |buf|;
    var i := 0;
    assert buf[0..] == buf;
    assert [] + Extract(buf, filter).frames == Extract(buf, filter).frames;
    while true
      invariant 0 <= i <= length
      invariant ScannedUpTo(buf, filter, frames, i)
      decreases length - i
    {
      var start := i;
      while !(i >= length || buf[i] == ShortMarker || buf[i] == LongMarker)
        invariant start <= i <= length
        invariant forall k :: start <= k < i ==> !IsMarker(buf[k])
        decreases length - i
      {
        i := i + 1;
      }
      SkipRunKeepsScan(buf, filter, frames, start, i);
      var bytesRemaining := length - i;
      if bytesRemaining < 1 {
        StopEndsScan(buf, filter, frames, i);
        rest := buf[i..];
        return;
      }
      var cmd := buf[i];
      if IsMarker(cmd) {
        CompleteLengthAt(buf, i);
      }
      if cmd == ShortMarker && bytesRemaining >= 3 {
        TakeKeepsScan(buf, filter, frames, i, i + 3);
        frames := frames + if Accepts(filter, buf[i + 1]) then [buf[i..i + 3]] else [];
        i := i + 3;
      } else if cmd == LongMarker && bytesRemaining >= 5 {
        var msgLen: int := 256 * (buf[i + 4] as int) + buf[i + 3];
        var end := i + 5 + msgLen;
        if end > length {
          StopEndsScan(buf, filter, frames, i);
          rest := buf[i..];
          return;
        }
        TakeKeepsScan(buf, filter, frames, i, end);
        frames := frames + if Accepts(filter, buf[i + 1]) then [buf[i..end]] else [];
        i := end;
      } else {
        StopEndsScan(buf, filter, frames, i);
        rest := buf[i..];
        return;
      }
    }
  }

  // ---------------------------------------------------------------------
  // What a pass guarantees

  /** Every returned frame is a 3-byte short frame or a long frame exactly
      as long as its length bytes say, and its type byte passes the filter. */
  lemma {:induction false} FramesWellFormed(buf: seq<Byte>, filter: Filter)
    ensures forall k :: 0 <= k < |Extract(buf, filter).frames| ==>
      IsFrame(Extract(buf, filter).frames[k])
      && Accepts(filter, Extract(buf, filter).frames[k][1])
    decreases |buf|
  {
    if buf == [] {
    } else if !IsMarker(buf[0]) {
      FramesWellFormed(buf[1..], filter);
    } else if CompleteLength(buf).Some? {
      FramesWellFormed(buf[CompleteLength(buf).value..], filter);
    }
  }

  /** The new buffer is a suffix of the old one, and it is empty or starts
      at a marker whose frame has not fully arrived: leading bytes that are
      not markers are gone. */
  lemma {:induction false} RestIsQuiescentSuffix(buf: seq<Byte>, filter: Filter)
    ensures |Extract(buf, filter).rest| <= |buf|
    ensures Extract(buf, filter).rest == buf[|buf| - |Extract(buf, filter).rest|..]
    ensures Quiescent(Extract(buf, filter).rest)
    decreases |buf|
  {
    if buf == [] {
    } else if !IsMarker(buf[0]) {
      RestIsQuiescentSuffix(buf[1..], filter);
      ExtractSkips(buf, filter);
      SuffixOfDrop(buf, 1, Extract(buf[1..], filter).rest);
    } else if CompleteLength(buf).Some? {
      var n := CompleteLength(buf).value;
      RestIsQuiescentSuffix(buf[n..], filter);
      ExtractTakes(buf, filter, n);
      SuffixOfDrop(buf, n, Extract(buf[n..], filter).rest);
    }
  }

  /** A suffix of `buf[k..]` is a suffix of `buf`. */
  lemma SuffixOfDrop(buf: seq<Byte>, k: nat, r: seq<Byte>)
    requires k <= |buf| && |r| <= |buf| - k && r == buf[k..][|buf| - k - |r|..]
    ensures r == buf[|buf| - |r|..]
  {
  }

  /** A pass returns nothing and keeps the buffer exactly when the buffer is
      quiescent. */
  lemma QuiescentIffNoProgress(buf: seq<Byte>, filter: Filter)
    ensures Quiescent(buf) <==> Extract(buf, filter) == Extraction([], buf)
  {
    if buf != [] && !IsMarker(buf[0]) {
      RestIsQuiescentSuffix(buf[1..], filter);
    } else if buf != [] && CompleteLength(buf).Some? {
      RestIsQuiescentSuffix(buf[CompleteLength(buf).value..], filter);
    }
  }

  /** A second pass with no new bytes returns no frame and changes nothing,
      whatever the two filters. */
  lemma ExtractIdempotent(buf: seq<Byte>, filter: Filter, again: Filter)
    ensures Extract(Extract(buf, filter).rest, again)
         == Extraction([], Extract(buf, filter).rest)
  {
    RestIsQuiescentSuffix(buf, filter);
    QuiescentIffNoProgress(Extract(buf, filter).rest, again);
  }

  /** The frames of `frames` whose type byte passes `filter`, in order. */
  function Select(filter: Filter, frames: seq<seq<Byte>>): (r: seq<seq<Byte>>)
    ensures |r| <= |frames|
  {
    if frames == [] then []
    else if |frames[0]| >= 2 && Accepts(filter, frames[0][1]) then [frames[0]] + Select(filter, frames[1..])
    else Select(filter, frames[1..])
  }

  /** The filter only chooses among the frames a `"*"` pass finds: the new
      buffer does not depend on it, and the frames are the accepted ones in
      their original order. */
  lemma {:induction false} FilterSelects(buf: seq<Byte>, filter: Filter)
    ensures Extract(buf, filter).rest == Extract(buf, AnyType).rest
    ensures Extract(buf, filter).frames == Select(filter, Extract(buf, AnyType).frames)
    decreases |buf|
  {
    if buf == [] {
    } else if !IsMarker(buf[0]) {
      FilterSelects(buf[1..], filter);
    } else if CompleteLength(buf).Some? {
      var n := CompleteLength(buf).value;
      FilterSelects(buf[n..], filter);
      var all := Extract(buf[n..], AnyType).frames;
      assert ([buf[..n]] + all)[1..] == all;
    }
  }

  /** One piece of the buffer consumed by a pass: a byte skipped while
      looking for a marker, or a whole frame. */
  datatype Segment = Skipped(b: Byte) | Whole(frame: seq<Byte>)

  /** The pieces a `"*"` pass consumes, in buffer order. */
  function Layout(buf: seq<Byte>): seq<Segment>
    decreases |buf|
  {
    if buf == [] then []
    else if !IsMarker(buf[0]) then [Skipped(buf[0])] + Layout(buf[1..])
    else match CompleteLength(buf)
      case None => []
      case Some(n) => [Whole(buf[..n])] + Layout(buf[n..])
  }

  function SegmentBytes(segment: Segment): seq<Byte> {
    match segment
    case Skipped(b) => [b]
    case Whole(f) => f
  }

  function Flatten(segments: seq<Segment>): seq<Byte> {
    if segments == [] then [] else SegmentBytes(segments[0]) + Flatten(segments[1..])
  }

  function WholeFrames(segments: seq<Segment>): seq<seq<Byte>> {
    if segments == [] then []
    else (if segments[0].Whole? then [segments[0].frame] else []) + WholeFrames(segments[1..])
  }

  lemma FlattenCons(segment: Segment, segments: seq<Segment>, rest: seq<Byte>, whole: seq<Byte>)
    requires Flatten(segments) + rest == whole
    ensures Flatten([segment] + segments) + rest == SegmentBytes(segment) + whole
  {
    assert ([segment] + segments)[1..] == segments;
  }

  lemma LayoutSkipStep(buf: seq<Byte>)
    requires buf != [] && !IsMarker(buf[0])
    ensures Layout(buf) == [Skipped(buf[0])] + Layout(buf[1..])
    ensures Extract(buf, AnyType) == Extract(buf[1..], AnyType)
  {
  }

  lemma LayoutTakeStep(buf: seq<Byte>, n: nat)
    requires buf != [] && IsMarker(buf[0]) && CompleteLength(buf) == Some(n)
    ensures Layout(buf) == [Whole(buf[..n])] + Layout(buf[n..])
    ensures Extract(buf, AnyType) == Prefixed([buf[..n]], Extract(buf[n..], AnyType))
  {
  }

  lemma {:induction false} LayoutFlattens(buf: seq<Byte>)
    ensures Flatten(Layout(buf)) + Extract(buf, AnyType).rest == buf
    decreases |buf|
  {
    if buf == [] {
    } else if !IsMarker(buf[0]) {
      var tail := buf[1..];
      LayoutFlattens(tail);
      LayoutSkipStep(buf);
      FlattenCons(Skipped(buf[0]), Layout(tail), Extract(tail, AnyType).rest, tail);
      assert buf == [buf[0]] + tail;
    } else if CompleteLength(buf).Some? {
      var n := CompleteLength(buf).value;
      var tail := buf[n..];
      LayoutFlattens(tail);
      LayoutTakeStep(buf, n);
      FlattenCons(Whole(buf[..n]), Layout(tail), Extract(tail, AnyType).rest, tail);
      assert buf == buf[..n] + tail;
    }
  }

  lemma {:induction false} LayoutFrames(buf: seq<Byte>)
    ensures WholeFrames(Layout(buf)) == Extract(buf, AnyType).frames
    decreases |buf|
  {
    if buf == [] {
    } else if !IsMarker(buf[0]) {
      LayoutFrames(buf[1..]);
      var segs := [Skipped(buf[0])] + Layout(buf[1..]);
      assert segs[1..] == Layout(buf[1..]);
    } else if CompleteLength(buf).Some? {
      var n := CompleteLength(buf).value;
      LayoutFrames(buf[n..]);
      var segs := [Whole(buf[..n])] + Layout(buf[n..]);
      assert segs[1..] == Layout(buf[n..]);
    }
  }

  lemma {:induction false} LayoutSkipsNonMarkers(buf: seq<Byte>)
    ensures forall k :: 0 <= k < |Layout(buf)| && Layout(buf)[k].Skipped? ==> !IsMarker(Layout(buf)[k].b)
    decreases |buf|
  {
    if buf == [] {
    } else if !IsMarker(buf[0]) {
      LayoutSkipsNonMarkers(buf[1..]);
    } else if CompleteLength(buf).Some? {
      LayoutSkipsNonMarkers(buf[CompleteLength(buf).value..]);
    }
  }

  /** Nothing is lost, reordered or duplicated: the old buffer is the
      skipped non-marker bytes interleaved with the frames a `"*"` pass
      returns, in order, followed by the new buffer. */
  lemma LayoutAccounts(buf: seq<Byte>)
    ensures Flatten(Layout(buf)) + Extract(buf, AnyType).rest == buf
    ensures WholeFrames(Layout(buf)) == Extract(buf, AnyType).frames
    ensures forall k :: 0 <= k < |Layout(buf)| && Layout(buf)[k].Skipped? ==> !IsMarker(Layout(buf)[k].b)
  {
    LayoutFlattens(buf);
    LayoutFrames(buf);
    LayoutSkipsNonMarkers(buf);
  }

  // ---------------------------------------------------------------------
  // Chunked input

  lemma CompleteLengthExtends(a: seq<Byte>, b: seq<Byte>)
    requires a != [] && IsMarker(a[0]) && CompleteLength(a).Some?
    ensures (a + b)[0] == a[0] && (a + b)[1] == a[1]
    ensures CompleteLength(a + b) == CompleteLength(a)
    ensures (a + b)[..CompleteLength(a).value] == a[..CompleteLength(a).value]
    ensures (a + b)[CompleteLength(a).value..] == a[CompleteLength(a).value..] + b
  {
  }

  /** Resumability: a pass over `a`, then a pass over what it kept with `b`
      appended, finds the same frames and leaves the same buffer as one
      pass over `a + b`. */
  lemma {:induction false} ExtractResumes(a: seq<Byte>, b: seq<Byte>, filter: Filter)
    ensures Extract(a + b, filter)
         == Prefixed(Extract(a, filter).frames, Extract(Extract(a, filter).rest + b, filter))
    decreases |a|
  {
    var first := Extract(a, filter);
    if a == [] {
      assert a + b == b && first.rest + b == b;
    } else if !IsMarker(a[0]) {
      assert (a + b)[1..] == a[1..] + b;
      ExtractResumes(a[1..], b, filter);
    } else if CompleteLength(a).None? {
      assert first.rest + b == a + b;
    } else {
      var n := CompleteLength(a).value;
      CompleteLengthExtends(a, b);
      ExtractResumes(a[n..], b, filter);
      var taken := if Accepts(filter, a[1]) then [a[..n]] else [];
      PrefixedTwice(taken, Extract(a[n..], filter).frames, Extract(Extract(a[n..], filter).rest + b, filter));
    }
  }

  function Concat(chunks: seq<seq<Byte>>): seq<Byte> {
    if chunks == [] then [] else chunks[0] + Concat(chunks[1..])
  }

  /** Chunks arriving one at a time, as the receive methods take them: an
      empty read leaves the buffer alone, any other is appended and a pass
      is run. */
  function Feed(buf: seq<Byte>, chunks: seq<seq<Byte>>, filter: Filter): Extraction
    decreases |chunks|
  {
    if chunks == [] then Extraction([], buf)
    else if chunks[0] == [] then Feed(buf, chunks[1..], filter)
    else
      var e := Extract(buf + chunks[0], filter);
      Prefixed(e.frames, Feed(e.rest, chunks[1..], filter))
  }

  /** Fragmentation invariance: from a quiescent buffer, feeding the chunks
      one by one yields the frames and the buffer of a single pass over
      their concatenation. */
  lemma {:induction false} ChunkedEqualsWhole(buf: seq<Byte>, chunks: seq<seq<Byte>>, filter: Filter)
    requires Quiescent(buf)
    ensures Feed(buf, chunks, filter) == Extract(buf + Concat(chunks), filter)
    decreases |chunks|
  {
    if chunks == [] {
      QuiescentIffNoProgress(buf, filter);
      assert buf + [] == buf;
    } else if chunks[0] == [] {
      ChunkedEqualsWhole(buf, chunks[1..], filter);
      assert Concat(chunks) == Concat(chunks[1..]);
    } else {
      var e := Extract(buf + chunks[0], filter);
      RestIsQuiescentSuffix(buf + chunks[0], filter);
      ChunkedEqualsWhole(e.rest, chunks[1..], filter);
      FeedChunkStep(buf, chunks, filter);
    }
  }

  /** One non-empty chunk: the pass it triggers followed by the remaining
      chunks is one pass over everything, given that the remaining chunks
      behave so from the buffer the pass leaves. */
  lemma FeedChunkStep(buf: seq<Byte>, chunks: seq<seq<Byte>>, filter: Filter)
    requires chunks != [] && chunks[0] != []
    requires var e := Extract(buf + chunks[0], filter);
      Feed(e.rest, chunks[1..], filter) == Extract(e.rest + Concat(chunks[1..]), filter)
    ensures Feed(buf, chunks, filter) == Extract(buf + Concat(chunks), filter)
  {
    var later := Concat(chunks[1..]);
    var e := Extract(buf + chunks[0], filter);
    assert Feed(buf, chunks, filter) == Prefixed(e.frames, Feed(e.rest, chunks[1..], filter));
    ConcatCons(buf, chunks);
    ExtractResumes(buf + chunks[0], later, filter);
  }

  lemma ConcatCons(buf: seq<Byte>, chunks: seq<seq<Byte>>)
    requires chunks != []
    ensures buf + Concat(chunks) == (buf + chunks[0]) + Concat(chunks[1..])
  {
    assert Concat(chunks) == chunks[0] + Concat(chunks[1..]);
  }
}

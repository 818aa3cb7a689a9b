/**
  The MJPEG frame splitter of the camera daemon (`StreamingOutput`). The
  camera pushes byte chunks into `Write`; a chunk that opens with the JPEG
  start-of-image marker closes the frame accumulated so far, which becomes the
  published `frame`, and the marker chunk starts the next one.

  The specification side is a pair of functions over the whole history of
  chunks written into a fresh output: `Published` (the frames published, in
  order) and `Pending` (the chunks accumulated since the last marker chunk).
 */
module CameraOutput {
  import opened Wrappers
  import opened Bytes
  import opened ByteStream

  /** The chunks written since the last marker chunk (that chunk included). */
  function Pending(history: seq<seq<byte>>): seq<seq<byte>>
  {
    if history == [] then []
    else
      var c := history[|history| - 1];
      if StartsWithSoi(c) then [c] else Pending(history[..|history| - 1]) + [c]
  }

  /** Every frame published while `history` is written into a fresh output, oldest first. */
  function Published(history: seq<seq<byte>>): seq<seq<byte>>
  {
    if history == [] then []
    else
      var before := history[..|history| - 1];
      if StartsWithSoi(history[|history| - 1]) then Published(before) + [Flatten(Pending(before))]
      else Published(before)
  }

  /** The value of `frame` after writing `history` into a fresh output. */
  function LatestFrame(history: seq<seq<byte>>): Option<seq<byte>>
  {
    var p := Published(history);
    if p == [] then None else Some(p[|p| - 1])
  }

  /** Writing one more chunk: what it does to the pending chunks and to the published frame. */
  lemma WriteStep(history: seq<seq<byte>>, c: seq<byte>)
    ensures Pending(history + [c]) == if StartsWithSoi(c) then [c] else Pending(history) + [c]
    ensures LatestFrame(history + [c]) == if StartsWithSoi(c) then Some(Flatten(Pending(history))) else LatestFrame(history)
  {
    assert (history + [c])[..|history + [c]| - 1] == history;
  }

  /** How many chunks of `history` open with the start-of-image marker. */
  function MarkerCount(history: seq<seq<byte>>): nat
  {
    if history == [] then 0
    else MarkerCount(history[..|history| - 1]) + (if StartsWithSoi(history[|history| - 1]) then 1 else 0)
  }

  class StreamingOutput {
    /** The last complete frame; `None` until the first marker chunk arrives. */
    var frame: Option<seq<byte>>
    var buffer: BytesIO
    /** Every chunk written so far. */
    ghost var history: seq<seq<byte>>
    /** The chunks written since the last marker chunk. */
    ghost var chunks: seq<seq<byte>>

    /** The bytes before the stream position: what the next frame holds so far. */
    ghost function Live(): seq<byte>
      reads this, buffer
      requires buffer.pos <= |buffer.data|
    {
      buffer.data[..buffer.pos]
    }

    ghost predicate Valid()
      reads this, buffer
    {
      && buffer.pos <= |buffer.data|
      && chunks == Pending(history)
      && Live() == Flatten(chunks)
      && frame == LatestFrame(history)
    }

    constructor ()
      ensures Valid() && fresh(buffer)
      ensures history == [] && chunks == [] && frame == None
      ensures buffer.data == [] && buffer.pos == 0
    {
      frame := None;
      buffer := new BytesIO();
      history := [];
      chunks := [];
    }

    /**
      Accept one chunk from the camera. A marker chunk first cuts the stream
      at its position, publishes what is left as the frame and rewinds; the
      chunk is then written at the position. The stale bytes beyond the
      position, left by a longer earlier frame, are cut before they can be
      published.
     */
    method Write(buf: seq<byte>) returns (n: nat)
      requires Valid()
      modifies this, buffer
      ensures Valid() && buffer == old(buffer)
      ensures history == old(history) + [buf]
      ensures n == |buf|
      ensures StartsWithSoi(buf) ==> frame == Some(old(Live())) && Live() == buf && chunks == [buf]
      ensures !StartsWithSoi(buf) ==> frame == old(frame) && Live() == old(Live()) + buf
      ensures !StartsWithSoi(buf) ==> chunks == old(chunks) + [buf]
      ensures StartsWithSoi(buf) ==> buffer.data == Overwrite(old(Live()), 0, buf) && buffer.pos == |buf|
      ensures !StartsWithSoi(buf) ==> buffer.data == Overwrite(old(buffer.data), old(buffer.pos), buf)
      ensures !StartsWithSoi(buf) ==> buffer.pos == old(buffer.pos) + |buf|
    {
      ghost var h0, c0, live0 := history, chunks, Live();
      WriteStep(h0, buf);
      if StartsWithSoi(buf) {
        var size := buffer.Truncate();
        frame := Some(buffer.GetValue());
        var start := buffer.Seek(0);
        chunks := [];
        assert frame == Some(live0) == LatestFrame(h0 + [buf]);
      }
      ghost var live := Live();
      assert live == Flatten(chunks);
      OverwriteLive(buffer.data, buffer.pos, buf);
      n := buffer.Write(buf);
      assert Live() == live + buf;
      FlattenSnoc(chunks, buf);
      history := h0 + [buf];
      chunks := chunks + [buf];
      assert chunks == Pending(history);
      assert Live() == Flatten(chunks);
      assert frame == LatestFrame(history);
    }
  }

  /** One frame is published per marker chunk, the first one included. */
  lemma {:induction false} PublishCount(history: seq<seq<byte>>)
    ensures |Published(history)| == MarkerCount(history)
  {
    if history != [] {
      PublishCount(history[..|history| - 1]);
    }
  }

  /**
    Every byte written is either in a published frame or still pending, in
    the order written: nothing is lost, duplicated or reordered.
   */
  lemma {:induction false} NothingLostOrDuplicated(history: seq<seq<byte>>)
    ensures Flatten(Published(history)) + Flatten(Pending(history)) == Flatten(history)
  {
    if history != [] {
      var before := history[..|history| - 1];
      var c := history[|history| - 1];
      NothingLostOrDuplicated(before);
      if StartsWithSoi(c) {
        FlattenSingle(c);
        calc {
          Flatten(Published(history)) + Flatten(Pending(history));
          Flatten(Published(before) + [Flatten(Pending(before))]) + c;
          Flatten(Published(before)) + Flatten(Pending(before)) + c;
          Flatten(before) + c;
        }
      } else {
        calc {
          Flatten(Published(history)) + Flatten(Pending(history));
          Flatten(Published(before)) + (Flatten(Pending(before)) + c);
          Flatten(before) + c;
        }
      }
    }
  }

  /** Once a marker chunk has been written, the pending chunks open with one. */
  lemma {:induction false} PendingOpensWithMarker(history: seq<seq<byte>>)
    requires MarkerCount(history) > 0
    ensures Pending(history) != [] && StartsWithSoi(Pending(history)[0])
  {
    var before := history[..|history| - 1];
    if !StartsWithSoi(history[|history| - 1]) {
      PendingOpensWithMarker(before);
    }
  }

  lemma FlattenOpensWithMarker(cs: seq<seq<byte>>)
    requires cs != [] && StartsWithSoi(cs[0])
    ensures StartsWithSoi(Flatten(cs))
  {
    assert cs == [cs[0]] + cs[1..];
    FlattenAppend([cs[0]], cs[1..]);
    FlattenSingle(cs[0]);
  }

  /** Every frame after the first one opens with the start-of-image marker. */
  lemma {:induction false} LaterFramesOpenWithMarker(history: seq<seq<byte>>)
    ensures forall i :: 0 < i < |Published(history)| ==> StartsWithSoi(Published(history)[i])
  {
    if history != [] {
      var before := history[..|history| - 1];
      LaterFramesOpenWithMarker(before);
      if StartsWithSoi(history[|history| - 1]) && Published(before) != [] {
        PublishCount(before);
        PendingOpensWithMarker(before);
        FlattenOpensWithMarker(Pending(before));
      }
    }
  }

  /** Writing more chunks only appends to what has been published. */
  lemma {:induction false} PublishedGrows(history: seq<seq<byte>>, more: seq<seq<byte>>)
    ensures Published(history) <= Published(history + more)
    decreases |more|
  {
    if more == [] {
      assert history + more == history;
    } else {
      var more' := more[..|more| - 1];
      assert (history + more)[..|history + more| - 1] == history + more';
      PublishedGrows(history, more');
      assert Published(history + more') <= Published(history + more);
    }
  }

  /**
    The first marker chunk written into a fresh output publishes the empty
    frame: nothing had been accumulated yet.
   */
  lemma FirstMarkerPublishesEmpty(history: seq<seq<byte>>)
    requires history != [] && StartsWithSoi(history[0])
    ensures |Published(history)| >= 1 && Published(history)[0] == []
  {
    assert [history[0]][..0] == [];
    assert Published([history[0]]) == [[]];
    assert history == [history[0]] + history[1..];
    PublishedGrows([history[0]], history[1..]);
  }

  /**
    Two marker chunks in a row publish two frames: the empty frame, then the
    whole first chunk, marker bytes included.
   */
  lemma TwoMarkerChunks()
    ensures Published([[0xFF, 0xD8, 0x41, 0x41, 0x41], [0xFF, 0xD8, 0x42, 0x42, 0x42]])
         == [[], [0xFF, 0xD8, 0x41, 0x41, 0x41]]
  {
    var a: seq<byte> := [0xFF, 0xD8, 0x41, 0x41, 0x41];
    var b: seq<byte> := [0xFF, 0xD8, 0x42, 0x42, 0x42];
    assert [a, b][..1] == [a];
    assert [a][..0] == [];
    FlattenSingle(a);
  }

  /**
    A long frame followed by a short one leaves stale bytes past the stream
    position; the next marker still publishes only the short frame.
   */
  method StaleTailIsCut() returns (raw: seq<byte>, published: Option<seq<byte>>)
    ensures raw == [0xFF, 0xD8, 0x09, 0x02, 0x03]
    ensures published == Some([0xFF, 0xD8, 0x09])
  {
    var out := new StreamingOutput();
    var n := out.Write([0xFF, 0xD8, 0x01, 0x02, 0x03]);
    assert out.buffer.data == [0xFF, 0xD8, 0x01, 0x02, 0x03];
    n := out.Write([0xFF, 0xD8, 0x09]);
    raw := out.buffer.data;
    assert raw[..3] == [0xFF, 0xD8, 0x09] && raw[3..] == [0x02, 0x03];
    n := out.Write([0xFF, 0xD8]);
    published := out.frame;
  }
}

/** The buffering worker as a state machine over queue items: what handling
    one item does, what draining a queue of items does, and the facts that
    hold of every state it can reach. */
module Buffering {
  import opened Rendering
  import opened Recognition

  newtype byte = x: int | 0 <= x < 256

  /** A queue item: one audio frame from the stream, or the end-of-input marker. */
  datatype Item = Frame(data: seq<byte>) | Done

  /** The speech service: the responses it streams back for an audio chunk. */
  type Recognizer = seq<byte> -> seq<Response>

  /** The service never answers with a final result that has no alternative
      (one would make the worker fail when it reads the first one). */
  ghost predicate Reliable(recognize: Recognizer)
  {
    forall chunk :: ResponsesReadable(recognize(chunk))
  }

  /** What do_transcription returns for an audio chunk. */
  function Transcription(recognize: Recognizer, chunk: seq<byte>): (text: string)
    ensures |text| > 0 && text[0] == '\n'
  {
    Assembled(recognize(chunk))
  }

  /** The worker's state: the accumulated audio, the length at which the next
      transcription fires, the output file's contents, how many items have
      been acknowledged, the chunks sent for transcription so far (oldest
      first), and whether the end marker has been seen. */
  datatype WorkerState = WorkerState(
    buffer: seq<byte>,
    threshold: int,
    output: string,
    acked: nat,
    calls: seq<seq<byte>>,
    stopped: bool)

  /** The state before the first item: nothing buffered, the threshold one
      step, the placeholder page written. */
  function Start(step: nat): WorkerState
  {
    WorkerState([], step, Placeholder(), 0, [], false)
  }

  /** One turn of the worker loop on `item`. */
  function Handle(st: WorkerState, item: Item, step: nat, recognize: Recognizer): (next: WorkerState)
  {
    match item
    case Done => st.(acked := st.acked + 1, stopped := true)
    case Frame(data) =>
      var buffer := st.buffer + data;
      if |buffer| >= st.threshold then
        st.(buffer := buffer, threshold := |buffer| + step,
            output := Render(Transcription(recognize, buffer)),
            calls := st.calls + [buffer], acked := st.acked + 1)
      else
        st.(buffer := buffer, acked := st.acked + 1)
  }

  /** The worker loop on a queue holding `items`: items are taken in order
      until the end marker has been handled. */
  function Consume(st: WorkerState, items: seq<Item>, step: nat, recognize: Recognizer): (last: WorkerState)
    // a stopped worker takes nothing more
    ensures st.stopped ==> last == st
    // at most one acknowledgement per queued item
    ensures st.acked <= last.acked <= st.acked + |items|
    // audio and the call log are only ever extended
    ensures st.buffer <= last.buffer && st.calls <= last.calls
    decreases |items|
  {
    if items == [] || st.stopped then st
    else Consume(Handle(st, items[0], step, recognize), items[1..], step, recognize)
  }

  /** The length of the chunk sent at the latest firing, or 0 before any. */
  function LastFired(calls: seq<seq<byte>>): nat
  {
    if calls == [] then 0 else |calls[|calls| - 1]|
  }

  /** The facts that hold of every state the worker reaches. */
  ghost predicate Inv(st: WorkerState, step: nat, recognize: Recognizer)
  {
    && step > 0
    // the threshold is one step past the latest chunk sent (or one step at first)
    && st.threshold == LastFired(st.calls) + step
    // and the buffer has not reached it
    && |st.buffer| < st.threshold
    // every chunk sent was the whole buffer of its time
    && (forall i :: 0 <= i < |st.calls| ==> st.calls[i] <= st.buffer)
    // successive chunks are at least one step apart, the first one at least one step long
    && (st.calls != [] ==> |st.calls[0]| >= step)
    && (forall i :: 0 < i < |st.calls| ==> |st.calls[i - 1]| + step <= |st.calls[i]|)
    // the page shows the transcription of the latest chunk, or the placeholder before any
    && st.output == (if st.calls == [] then Placeholder()
                     else Render(Transcription(recognize, st.calls[|st.calls| - 1])))
  }

  /** The start state satisfies the invariant. */
  lemma StartInv(step: nat, recognize: Recognizer)
    requires step > 0
    ensures Inv(Start(step), step, recognize)
  {
  }

  /** Handling any item keeps the invariant. */
  lemma HandleInv(st: WorkerState, item: Item, step: nat, recognize: Recognizer)
    requires Inv(st, step, recognize)
    ensures Inv(Handle(st, item, step, recognize), step, recognize)
  {
    if item.Frame? {
      var buffer := st.buffer + item.data;
      assert st.buffer <= buffer;
      forall i | 0 <= i < |st.calls|
        ensures st.calls[i] <= buffer
      {
        assert st.calls[i] <= st.buffer;
      }
    }
  }

  /** Draining a queue keeps the invariant. */
  lemma {:induction false} ConsumeInv(st: WorkerState, items: seq<Item>, step: nat, recognize: Recognizer)
    requires Inv(st, step, recognize)
    ensures Inv(Consume(st, items, step, recognize), step, recognize)
    decreases |items|
  {
    if items != [] && !st.stopped {
      HandleInv(st, items[0], step, recognize);
      ConsumeInv(Handle(st, items[0], step, recognize), items[1..], step, recognize);
    }
  }

  /** Every reachable state satisfies the invariant. */
  lemma ReachableInv(items: seq<Item>, step: nat, recognize: Recognizer)
    requires step > 0
    ensures Inv(Consume(Start(step), items, step, recognize), step, recognize)
  {
    StartInv(step, recognize);
    ConsumeInv(Start(step), items, step, recognize);
  }

  /** Draining `a` and then `b` is draining `a + b`. */
  lemma {:induction false} ConsumeAppend(st: WorkerState, a: seq<Item>, b: seq<Item>, step: nat, recognize: Recognizer)
    ensures Consume(st, a + b, step, recognize) == Consume(Consume(st, a, step, recognize), b, step, recognize)
    decreases |a|
  {
    if a == [] {
      assert a + b == b;
    } else if st.stopped {
      assert Consume(st, a, step, recognize) == st;
      assert b == [] || Consume(st, b, step, recognize) == st;
    } else {
      assert (a + b)[0] == a[0];
      assert (a + b)[1..] == a[1..] + b;
      ConsumeAppend(Handle(st, a[0], step, recognize), a[1..], b, step, recognize);
    }
  }

  /** Draining one more item, while the worker has not stopped, is handling it. */
  lemma ConsumeStep(st: WorkerState, items: seq<Item>, n: nat, step: nat, recognize: Recognizer)
    requires n < |items| && !Consume(st, items[..n], step, recognize).stopped
    ensures Consume(st, items[..n + 1], step, recognize)
         == Handle(Consume(st, items[..n], step, recognize), items[n], step, recognize)
  {
    assert items[..n + 1] == items[..n] + [items[n]];
    ConsumeAppend(st, items[..n], [items[n]], step, recognize);
    assert [items[n]][1..] == [];
  }

  /** A loop that has taken `n` items and then stopped, or run out of items,
      has drained the whole queue: it took the items up to the first end
      marker, and it stopped exactly when there was one. */
  lemma ConsumeFinish(st: WorkerState, items: seq<Item>, n: nat, step: nat, recognize: Recognizer)
    requires !st.stopped && n <= |items|
    requires n == |items| || Consume(st, items[..n], step, recognize).stopped
    requires Consume(st, items[..n], step, recognize).acked == st.acked + n
    ensures Consume(st, items, step, recognize) == Consume(st, items[..n], step, recognize)
    ensures n == |UntilDone(items)|
    ensures Consume(st, items, step, recognize).stopped <==> Done in items
  {
    ConsumeAppend(st, items[..n], items[n..], step, recognize);
    assert items[..n] + items[n..] == items;
    ConsumeUntilDone(st, items, step, recognize);
  }

  /** The items a worker dequeues from a queue holding `items`: all of them
      up to and including the first end marker. */
  function UntilDone(items: seq<Item>): (taken: seq<Item>)
    ensures taken <= items
    ensures Done in items <==> Done in taken
    ensures Done in taken ==> taken[|taken| - 1] == Done
    ensures taken == [] || Done !in taken[..|taken| - 1]
  {
    if items == [] then []
    else if items[0] == Done then [Done]
    else [items[0]] + UntilDone(items[1..])
  }

  /** The frames that arrive before the first end marker. */
  function FramesBeforeDone(items: seq<Item>): (frames: seq<seq<byte>>)
    // the queue starts with exactly these frames, in order ...
    ensures |frames| <= |items|
    ensures forall i :: 0 <= i < |frames| ==> items[i] == Frame(frames[i])
    // ... followed by the end marker, or by nothing
    ensures |frames| < |items| ==> items[|frames|] == Done
  {
    if items == [] || items[0] == Done then [] else [items[0].data] + FramesBeforeDone(items[1..])
  }

  /** The frames of `frames`, one after the other. */
  function Flatten(frames: seq<seq<byte>>): seq<byte>
  {
    if frames == [] then [] else frames[0] + Flatten(frames[1..])
  }

  /** The sum of the lengths of `frames`. */
  function TotalLength(frames: seq<seq<byte>>): nat
  {
    if frames == [] then 0 else |frames[0]| + TotalLength(frames[1..])
  }

  /** Concatenating frames gives a buffer as long as the sum of their lengths. */
  lemma {:induction false} FlattenLength(frames: seq<seq<byte>>)
    ensures |Flatten(frames)| == TotalLength(frames)
  {
    if frames != [] {
      FlattenLength(frames[1..]);
    }
  }

  /** Nothing after the end marker is consumed, every dequeued item (the end
      marker included) is acknowledged exactly once, and the worker stops
      exactly when an end marker is among the items. */
  lemma {:induction false} ConsumeUntilDone(st: WorkerState, items: seq<Item>, step: nat, recognize: Recognizer)
    requires !st.stopped
    ensures Consume(st, items, step, recognize) == Consume(st, UntilDone(items), step, recognize)
    ensures Consume(st, items, step, recognize).acked == st.acked + |UntilDone(items)|
    ensures Consume(st, items, step, recognize).stopped <==> Done in items
    decreases |items|
  {
    if items != [] {
      var next := Handle(st, items[0], step, recognize);
      if items[0] == Done {
        assert UntilDone(items)[1..] == [];
        assert Consume(next, items[1..], step, recognize) == next;
      } else {
        ConsumeUntilDone(next, items[1..], step, recognize);
        assert UntilDone(items)[0] == items[0];
        assert UntilDone(items)[1..] == UntilDone(items[1..]);
        assert Done in items <==> Done in items[1..];
      }
    }
  }

  /** The buffer is the old buffer followed by every frame that arrived
      before the end marker, in arrival order; its length grows by the sum
      of their lengths. */
  lemma {:induction false} ConsumeBuffer(st: WorkerState, items: seq<Item>, step: nat, recognize: Recognizer)
    requires !st.stopped
    ensures Consume(st, items, step, recognize).buffer == st.buffer + Flatten(FramesBeforeDone(items))
    ensures |Consume(st, items, step, recognize).buffer| == |st.buffer| + TotalLength(FramesBeforeDone(items))
    decreases |items|
  {
    FlattenLength(FramesBeforeDone(items));
    if items != [] && items[0] != Done {
      var next := Handle(st, items[0], step, recognize);
      ConsumeBuffer(next, items[1..], step, recognize);
      assert next.buffer == st.buffer + items[0].data;
      assert Flatten(FramesBeforeDone(items)) == items[0].data + Flatten(FramesBeforeDone(items[1..]));
      assert st.buffer + items[0].data + Flatten(FramesBeforeDone(items[1..]))
          == st.buffer + (items[0].data + Flatten(FramesBeforeDone(items[1..])));
    }
  }

  /** From the start, with no end marker among the items: the buffer is the
      concatenation of all frames in arrival order. */
  lemma BufferIsConcatenation(frames: seq<seq<byte>>, step: nat, recognize: Recognizer)
    ensures Consume(Start(step), FramesOnly(frames), step, recognize).buffer == Flatten(frames)
    ensures |Consume(Start(step), FramesOnly(frames), step, recognize).buffer| == TotalLength(frames)
  {
    FramesOnlyBeforeDone(frames);
    ConsumeBuffer(Start(step), FramesOnly(frames), step, recognize);
  }

  /** The queue items carrying `frames`, in order. */
  function FramesOnly(frames: seq<seq<byte>>): (items: seq<Item>)
    ensures |items| == |frames|
    ensures forall i :: 0 <= i < |items| ==> items[i] == Frame(frames[i])
  {
    if frames == [] then [] else [Frame(frames[0])] + FramesOnly(frames[1..])
  }

  /** A queue of frames alone, with no end marker, hands every frame on in order. */
  lemma {:induction false} FramesOnlyBeforeDone(frames: seq<seq<byte>>)
    ensures FramesBeforeDone(FramesOnly(frames)) == frames
  {
    if frames != [] {
      FramesOnlyBeforeDone(frames[1..]);
      assert FramesOnly(frames)[1..] == FramesOnly(frames[1..]);
    }
  }

  /** The end marker ends the loop: whatever precedes it, the worker then
      only acknowledges it and stops, leaving buffer, threshold, page and call
      log as they were, and nothing queued after it is taken. */
  lemma {:induction false} DoneStops(st: WorkerState, p: seq<Item>, r: seq<Item>, step: nat, recognize: Recognizer)
    requires !st.stopped && Done !in p
    ensures var before := Consume(st, p, step, recognize);
      Consume(st, p + [Done] + r, step, recognize) == before.(acked := before.acked + 1, stopped := true)
    decreases |p|
  {
    var q := p + [Done] + r;
    if p == [] {
      assert q[0] == Done;
      assert Handle(st, Done, step, recognize).stopped;
    } else {
      assert q[0] == p[0];
      assert q[1..] == p[1..] + [Done] + r;
      DoneStops(Handle(st, p[0], step, recognize), p[1..], r, step, recognize);
    }
  }

  /** A frame fires a transcription exactly when the buffer has grown by at
      least one step since the latest firing (since the start, before the
      first); the chunk sent is the whole new buffer and the page shows its
      transcription. Without firing, threshold, page and log stay. */
  lemma HandleFrameFires(st: WorkerState, data: seq<byte>, step: nat, recognize: Recognizer)
    requires Inv(st, step, recognize)
    ensures var next := Handle(st, Frame(data), step, recognize);
      && next.buffer == st.buffer + data
      && next.acked == st.acked + 1
      && (next.calls != st.calls <==> |next.buffer| >= st.threshold)
      && (next.calls != st.calls <==> |st.buffer| + |data| >= LastFired(st.calls) + step)
      && (next.calls != st.calls ==>
            && next.calls == st.calls + [st.buffer + data]
            && next.threshold == |st.buffer| + |data| + step
            && next.output == Render(Transcription(recognize, st.buffer + data)))
      && (next.calls == st.calls ==> next.threshold == st.threshold && next.output == st.output)
  {
  }

  /** The threshold never decreases: a firing raises it strictly, anything
      else leaves it as it was. */
  lemma HandleThreshold(st: WorkerState, item: Item, step: nat, recognize: Recognizer)
    requires Inv(st, step, recognize)
    ensures var next := Handle(st, item, step, recognize);
      && (next.calls == st.calls ==> next.threshold == st.threshold)
      && (next.calls != st.calls ==> next.threshold > st.threshold)
  {
  }

  /** Over a whole run the threshold never decreases and the call log only grows. */
  lemma {:induction false} ConsumeMonotone(st: WorkerState, items: seq<Item>, step: nat, recognize: Recognizer)
    requires Inv(st, step, recognize)
    ensures Consume(st, items, step, recognize).threshold >= st.threshold
    ensures st.calls <= Consume(st, items, step, recognize).calls
    decreases |items|
  {
    if items != [] && !st.stopped {
      var next := Handle(st, items[0], step, recognize);
      HandleThreshold(st, items[0], step, recognize);
      HandleInv(st, items[0], step, recognize);
      ConsumeMonotone(next, items[1..], step, recognize);
    }
  }

  /** The chunks sent to the service are strict prefixes of one another,
      each at least one step longer than the one before. */
  lemma CallsGrow(st: WorkerState, step: nat, recognize: Recognizer)
    requires Inv(st, step, recognize)
    ensures forall i :: 0 < i < |st.calls| ==>
      st.calls[i - 1] < st.calls[i] && |st.calls[i]| - |st.calls[i - 1]| >= step
  {
  }

  /** The page is the placeholder until the first firing and afterwards the
      rendering of the latest chunk's transcription only (it does not
      accumulate earlier transcriptions). */
  lemma OutputIsLatest(items: seq<Item>, step: nat, recognize: Recognizer)
    requires step > 0
    ensures var st := Consume(Start(step), items, step, recognize);
      && (st.calls == [] ==> st.output == Placeholder())
      && (st.calls != [] ==>
            st.output == Render(Transcription(recognize, st.calls[|st.calls| - 1])) && st.output != Placeholder())
  {
    ReachableInv(items, step, recognize);
    var st := Consume(Start(step), items, step, recognize);
    if st.calls != [] {
      RenderedNotPlaceholder(Transcription(recognize, st.calls[|st.calls| - 1]));
    }
  }

  /** With a step of 4 and frames of lengths 1, 2, 1 and 1, transcription
      fires once, on the third frame, with all four bytes received so far. */
  lemma StepFourExample(b1: byte, b2: byte, b3: byte, b4: byte, b5: byte, recognize: Recognizer)
    ensures var items := [Frame([b1]), Frame([b2, b3]), Frame([b4]), Frame([b5])];
      && Consume(Start(4), items[..2], 4, recognize).calls == []
      && Consume(Start(4), items[..3], 4, recognize).calls == [[b1, b2, b3, b4]]
      && Consume(Start(4), items, 4, recognize).calls == [[b1, b2, b3, b4]]
      && Consume(Start(4), items, 4, recognize).threshold == 8
  {
    var items := [Frame([b1]), Frame([b2, b3]), Frame([b4]), Frame([b5])];
    var s0 := Start(4);
    var s1 := Handle(s0, items[0], 4, recognize);
    var s2 := Handle(s1, items[1], 4, recognize);
    var s3 := Handle(s2, items[2], 4, recognize);
    var s4 := Handle(s3, items[3], 4, recognize);
    assert s1.buffer == [b1] && s1.calls == [];
    assert s2.buffer == [b1, b2, b3] && s2.calls == [];
    assert s3.buffer == [b1, b2, b3, b4] && s3.calls == [[b1, b2, b3, b4]] && s3.threshold == 8;
    assert s4.calls == s3.calls && s4.threshold == 8;
    ConsumeAppend(s0, items[..2], items[2..3], 4, recognize);
    ConsumeAppend(s0, items[..3], items[3..], 4, recognize);
    assert items[..2] + items[2..3] == items[..3];
    assert items[..3] + items[3..] == items;
    assert items[..2][1..] == [items[1]] && [items[1]][1..] == [];
    assert Consume(s2, [], 4, recognize) == s2;
    assert Consume(s1, [items[1]], 4, recognize) == s2;
    assert Consume(s0, items[..2], 4, recognize) == s2;
    assert items[2..3] == [items[2]] && items[3..] == [items[3]];
    assert Consume(s2, [items[2]], 4, recognize) == s3;
    assert Consume(s3, [items[3]], 4, recognize) == s4;
  }

  /** With a service that answers every chunk the same way, the page shows
      that answer from the first firing on, and the placeholder before it. */
  lemma FixedServiceOutput(items: seq<Item>, step: nat, recognize: Recognizer, answer: seq<Response>)
    requires step > 0
    requires forall chunk :: recognize(chunk) == answer
    ensures var st := Consume(Start(step), items, step, recognize);
      st.output == if st.calls == [] then Placeholder() else Render(Assembled(answer))
  {
    ReachableInv(items, step, recognize);
  }
}

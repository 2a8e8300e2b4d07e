/** The transcription worker as the program runs it: one object whose fields
    the loop updates in place, item by item. */
module Worker {
  import opened Rendering
  import opened Recognition
  import opened Buffering

  class Transcriber {
    /** The growth of the buffer between two transcriptions. */
    const step: nat
    /** The speech service. */
    const recognize: Recognizer

    /** The audio received so far. */
    var buffer: seq<byte>
    /** The buffer length at which the next transcription fires. */
    var threshold: int
    /** The contents of the output file. */
    var output: string
    /** How many queue items have been acknowledged. */
    var acked: nat
    /** Whether the loop has returned. */
    var stopped: bool
    /** The chunks sent for transcription, oldest first. */
    ghost var calls: seq<seq<byte>>

    ghost function State(): WorkerState
      reads this
    {
      WorkerState(buffer, threshold, output, acked, calls, stopped)
    }

    ghost predicate Valid()
      reads this
    {
      Reliable(recognize) && Inv(State(), step, recognize)
    }

    /** The placeholder page is written, then the loop's state is set up. */
    constructor (step: nat, recognize: Recognizer)
      requires step > 0 && Reliable(recognize)
      ensures Valid()
      ensures this.step == step && this.recognize == recognize
      ensures State() == Start(step)
    {
      this.step := step;
      this.recognize := recognize;
      output := Placeholder();
      threshold := step;
      buffer := [];
      acked := 0;
      stopped := false;
      calls := [];
    }

    /** Overwrites the output file with the page for `transcribed`. */
    method WriteResult(transcribed: string)
      modifies this`output
      ensures output == Render(transcribed)
    {
      output := Format(Tpl, ReplaceNewlines(transcribed));
    }

    /** One turn of the loop: take `item`, append a frame and transcribe the
        whole buffer once it reaches the threshold, or stop on the end
        marker; the item is acknowledged in every case. */
    method Process(item: Item)
      requires Valid() && !stopped
      modifies this
      ensures Valid()
      ensures State() == Handle(old(State()), item, step, recognize)
      ensures acked == old(acked) + 1 && (stopped <==> item == Done)
    {
      ghost var before := State();
      match item {
        case Done =>
          stopped := true;
        case Frame(data) =>
          buffer := buffer + data;
          var written := |buffer|;
          if written >= threshold {
            var transcribed := AssembleTranscript(recognize(buffer));
            threshold := written + step;
            calls := calls + [buffer];
            WriteResult(transcribed);
          }
      }
      acked := acked + 1;
      assert State() == Handle(before, item, step, recognize);
      HandleInv(before, item, step, recognize);
    }

    /** The loop over a queue holding `queue`: items are taken in order until
        the end marker has been handled; returns how many were taken. */
    method Run(queue: seq<Item>) returns (taken: nat)
      requires Valid() && !stopped
      modifies this
      ensures Valid()
      ensures State() == Consume(old(State()), queue, step, recognize)
      ensures taken == |UntilDone(queue)| && acked == old(acked) + taken
      ensures stopped <==> Done in queue
    {
      ghost var start := State();
      taken := 0;
      while taken < |queue| && !stopped
        invariant taken <= |queue|
        invariant Valid()
        invariant State() == Consume(start, queue[..taken], step, recognize)
        invariant acked == start.acked + taken
        decreases |queue| - taken
      {
        Process(queue[taken]);
        ConsumeStep(start, queue, taken, step, recognize);
        taken := taken + 1;
      }
      ConsumeFinish(start, queue, taken, step, recognize);
    }
  }
}

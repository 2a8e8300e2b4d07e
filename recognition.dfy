/** What the speech service answers for one audio chunk, and how the text of
    its final results is put together into one transcript. The service itself
    is not modelled: the responses are given. */
module Recognition {

  /** One candidate text for a stretch of speech. */
  datatype Alternative = Alternative(transcript: string)

  /** One recognition result: final (stable) or interim, with its
      alternatives, the best one first. */
  datatype RecognitionResult = RecognitionResult(isFinal: bool, alternatives: seq<Alternative>)

  /** One streamed response: a batch of results. */
  datatype Response = Response(results: seq<RecognitionResult>)

  /** A result whose text can be read: only the first alternative of a final
      result is ever looked at. */
  predicate Readable(r: RecognitionResult)
  {
    !r.isFinal || |r.alternatives| > 0
  }

  predicate ResultsReadable(results: seq<RecognitionResult>)
  {
    forall j :: 0 <= j < |results| ==> Readable(results[j])
  }

  predicate ResponsesReadable(responses: seq<Response>)
  {
    forall i :: 0 <= i < |responses| ==> ResultsReadable(responses[i].results)
  }

  /** The transcript of a result's first (best) alternative, and "" for a
      result without alternatives (which a readable final result never is). */
  function Best(r: RecognitionResult): (t: string)
    ensures Readable(r) && r.isFinal ==> t == r.alternatives[0].transcript
    ensures r.alternatives == [] ==> t == ""
  {
    if |r.alternatives| > 0 then r.alternatives[0].transcript else ""
  }

  /** The best transcripts of the final results among `results`, in order. */
  function FinalsOf(results: seq<RecognitionResult>): (ts: seq<string>)
    ensures |ts| <= |results|
  {
    if results == [] then []
    else (if results[0].isFinal then [Best(results[0])] else []) + FinalsOf(results[1..])
  }

  /** The best transcripts of all final results of all responses, in order. */
  function FinalTranscripts(responses: seq<Response>): seq<string>
  {
    if responses == [] then []
    else FinalsOf(responses[0].results) + FinalTranscripts(responses[1..])
  }

  /** Each text followed by a line break, all concatenated. */
  function JoinLines(ts: seq<string>): string
  {
    if ts == [] then "" else ts[0] + "\n" + JoinLines(ts[1..])
  }

  /** Every text is followed by its own line break: the joined text has at
      least one character per text, and it ends with a line break unless
      there was nothing to join. */
  lemma {:induction false} JoinLinesEndsWithBreak(ts: seq<string>)
    ensures |JoinLines(ts)| >= |ts|
    ensures ts != [] ==> JoinLines(ts)[|JoinLines(ts)| - 1] == '\n'
  {
    if ts != [] {
      JoinLinesEndsWithBreak(ts[1..]);
    }
  }

  /** The transcript of a chunk: a leading line break, then every final
      result's best transcript followed by a line break. */
  function Assembled(responses: seq<Response>): (text: string)
    ensures |text| > 0 && text[0] == '\n'
  {
    "\n" + JoinLines(FinalTranscripts(responses))
  }

  /** No final result anywhere among the responses. */
  predicate NoFinal(responses: seq<Response>)
  {
    forall i, j :: 0 <= i < |responses| && 0 <= j < |responses[i].results| ==> !responses[i].results[j].isFinal
  }

  /** do_transcription after the service has answered: walks the responses
      and their results in order and appends the text of each final one. */
  method AssembleTranscript(responses: seq<Response>) returns (output: string)
    requires ResponsesReadable(responses)
    ensures output == Assembled(responses)
  {
    output := "\n";
    for i := 0 to |responses|
      invariant output == "\n" + JoinLines(FinalTranscripts(responses[..i]))
    {
      var results := responses[i].results;
      ghost var done := FinalTranscripts(responses[..i]);
      assert done + FinalsOf(results[..0]) == done;
      for j := 0 to |results|
        invariant output == "\n" + JoinLines(done + FinalsOf(results[..j]))
      {
        if !results[j].isFinal {
          assert output == "\n" + JoinLines(done + FinalsOf(results[..j + 1])) by {
            AppendResult(done, results, j);
          }
          continue;
        }
        assert Readable(results[j]);
        ghost var line := Best(results[j]) + "\n";
        assert output + line == "\n" + JoinLines(done + FinalsOf(results[..j + 1])) by {
          AppendResult(done, results, j);
        }
        output := output + results[j].alternatives[0].transcript + "\n";
      }
      assert output == "\n" + JoinLines(FinalTranscripts(responses[..i + 1])) by {
        assert results[..|results|] == results;
        AppendResponse(responses, i);
      }
    }
    assert responses[..|responses|] == responses;
  }

  /** One turn of the inner loop of AssembleTranscript. */
  lemma AppendResult(done: seq<string>, results: seq<RecognitionResult>, j: nat)
    requires j < |results|
    ensures JoinLines(done + FinalsOf(results[..j + 1]))
         == JoinLines(done + FinalsOf(results[..j])) + (if results[j].isFinal then Best(results[j]) + "\n" else "")
  {
    assert results[..j + 1] == results[..j] + [results[j]];
    FinalsOfAppend(results[..j], [results[j]]);
    var t := if results[j].isFinal then [Best(results[j])] else [];
    assert FinalsOf([results[j]]) == t + FinalsOf([]);
    assert done + FinalsOf(results[..j + 1]) == (done + FinalsOf(results[..j])) + t;
    JoinLinesAppend(done + FinalsOf(results[..j]), t);
    if t != [] {
      assert JoinLines(t) == t[0] + "\n" + JoinLines([]);
    }
  }

  /** One turn of the outer loop of AssembleTranscript. */
  lemma AppendResponse(responses: seq<Response>, i: nat)
    requires i < |responses|
    ensures FinalTranscripts(responses[..i + 1]) == FinalTranscripts(responses[..i]) + FinalsOf(responses[i].results)
  {
    assert responses[..i + 1] == responses[..i] + [responses[i]];
    FinalTranscriptsAppend(responses[..i], [responses[i]]);
    assert FinalTranscripts([responses[i]]) == FinalsOf(responses[i].results) + FinalTranscripts([]);
  }

  /** Results are taken in order: the finals of two batches of results are
      the finals of the first batch followed by those of the second. */
  lemma {:induction false} FinalsOfAppend(a: seq<RecognitionResult>, b: seq<RecognitionResult>)
    ensures FinalsOf(a + b) == FinalsOf(a) + FinalsOf(b)
  {
    if a == [] {
      assert a + b == b;
    } else {
      assert (a + b)[0] == a[0];
      assert (a + b)[1..] == a[1..] + b;
      FinalsOfAppend(a[1..], b);
    }
  }

  /** Responses are taken in order: the final transcripts of two runs of
      responses are those of the first run followed by those of the second. */
  lemma {:induction false} FinalTranscriptsAppend(a: seq<Response>, b: seq<Response>)
    ensures FinalTranscripts(a + b) == FinalTranscripts(a) + FinalTranscripts(b)
  {
    if a == [] {
      assert a + b == b;
    } else {
      assert (a + b)[0] == a[0];
      assert (a + b)[1..] == a[1..] + b;
      FinalTranscriptsAppend(a[1..], b);
    }
  }

  /** Joining line by line: the joined text of two lists of lines is the
      joined text of the first followed by that of the second. */
  lemma {:induction false} JoinLinesAppend(a: seq<string>, b: seq<string>)
    ensures JoinLines(a + b) == JoinLines(a) + JoinLines(b)
  {
    if a == [] {
      assert a + b == b;
    } else {
      assert (a + b)[0] == a[0];
      assert (a + b)[1..] == a[1..] + b;
      JoinLinesAppend(a[1..], b);
    }
  }

  /** A batch of results yields no text exactly when none of them is final. */
  lemma {:induction false} FinalsOfEmptyIff(results: seq<RecognitionResult>)
    ensures FinalsOf(results) == [] <==> forall j :: 0 <= j < |results| ==> !results[j].isFinal
  {
    if results != [] {
      FinalsOfEmptyIff(results[1..]);
      assert forall j :: 1 <= j < |results| ==> results[j] == results[1..][j - 1];
    }
  }

  /** There are no final transcripts exactly when no response has a final result. */
  lemma {:induction false} FinalTranscriptsEmptyIff(responses: seq<Response>)
    ensures FinalTranscripts(responses) == [] <==> NoFinal(responses)
  {
    if responses != [] {
      FinalsOfEmptyIff(responses[0].results);
      FinalTranscriptsEmptyIff(responses[1..]);
      assert forall i :: 1 <= i < |responses| ==> responses[i] == responses[1..][i - 1];
    }
  }

  /** The transcript is the bare leading line break exactly when no result
      of any response is final. */
  lemma AssembledBlankIff(responses: seq<Response>)
    ensures Assembled(responses) == "\n" <==> NoFinal(responses)
  {
    FinalTranscriptsEmptyIff(responses);
    JoinLinesEndsWithBreak(FinalTranscripts(responses));
  }

  /** A final result's best transcript is in the transcript list, and every
      entry of the list is the best transcript of some final result. */
  lemma {:induction false} FinalsOfMembers(results: seq<RecognitionResult>, t: string)
    requires ResultsReadable(results)
    ensures t in FinalsOf(results) <==>
      exists j :: 0 <= j < |results| && results[j].isFinal && results[j].alternatives[0].transcript == t
  {
    if results != [] {
      FinalsOfMembers(results[1..], t);
      assert forall j :: 1 <= j < |results| ==> results[j] == results[1..][j - 1];
      assert Readable(results[0]);
      if t in FinalsOf(results) && !(results[0].isFinal && results[0].alternatives[0].transcript == t) {
        var j :| 0 <= j < |results[1..]| && results[1..][j].isFinal && results[1..][j].alternatives[0].transcript == t;
        assert results[j + 1] == results[1..][j];
      }
    }
  }
}

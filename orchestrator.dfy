/**
 * Chunked summarization: split the article into sentences, group them into
 * chunks, call the summarization model once per chunk in order, join the
 * summaries with a space and clean the redundancies out of the joined text.
 *
 * The model is a function parameter. It answers `None` when the call raises,
 * which aborts the whole summarization.
 */
module Orchestrator {
  import opened Outcomes
  import opened TextOps
  import opened SentenceSplitter
  import opened Chunker
  import opened RedundancyCleaner

  /** The summarization model: a chunk, a maximum and a minimum summary length. */
  type Summarizer = (string, int, int) -> Option<string>

  /**
   * The summaries of `chunks` in order, or the failure of the first call that
   * raises; defined on the last chunk, the one a loop over `chunks` calls last.
   */
  function Summaries(chunks: seq<string>, model: Summarizer, maxLength: int, minLength: int): (r: Result<seq<string>>)
    ensures r.Success? <==> forall i :: 0 <= i < |chunks| ==> model(chunks[i], maxLength, minLength).Some?
    ensures r.Success? ==> |r.value| == |chunks|
    ensures r.Success? ==> forall i :: 0 <= i < |chunks| ==> r.value[i] == model(chunks[i], maxLength, minLength).value
    ensures r.Failure? ==> r.error == ModelInvocationFailed
    decreases |chunks|
  {
    if chunks == [] then Success([])
    else
      var init, last := chunks[..|chunks| - 1], chunks[|chunks| - 1];
      match Summaries(init, model, maxLength, minLength)
      case Failure(e) => Failure(e)
      case Success(summaries) =>
        match model(last, maxLength, minLength)
        case None => Failure(ModelInvocationFailed)
        case Some(summary) => Success(summaries + [summary])
  }

  /**
   * The summarize loop: one model call per chunk, in chunk order, appending each
   * summary. `calls` records the chunks the model was called on: all of them on
   * success, and on failure every chunk up to and including the one that raised.
   */
  method SummarizeChunks(chunks: seq<string>, maxLength: int, minLength: int, model: Summarizer)
    returns (r: Result<seq<string>>, ghost calls: seq<string>)
    ensures r == Summaries(chunks, model, maxLength, minLength)
    ensures r.Success? ==> calls == chunks
    ensures r.Failure? ==>
      && 0 < |calls| <= |chunks|
      && calls == chunks[..|calls|]
      && model(calls[|calls| - 1], maxLength, minLength).None?
      && forall j :: 0 <= j < |calls| - 1 ==> model(calls[j], maxLength, minLength).Some?
  {
    var summaries: seq<string> := [];
    calls := [];
    for i := 0 to |chunks|
      invariant calls == chunks[..i]
      invariant Summaries(chunks[..i], model, maxLength, minLength) == Success(summaries)
    {
      assert chunks[..i + 1][..i] == chunks[..i];
      calls := calls + [chunks[i]];
      var summary := model(chunks[i], maxLength, minLength);
      if summary.None? {
        return Failure(ModelInvocationFailed), calls;
      }
      summaries := summaries + [summary.value];
    }
    assert chunks[..|chunks|] == chunks;
    r := Success(summaries);
  }

  /** What summarizing `text` yields: the cleaned join of the chunk summaries. */
  function Summarize(text: string, chunkSize: int, maxLength: int, minLength: int, model: Summarizer): Result<string> {
    match Chunk(Split(text), chunkSize)
    case Failure(e) => Failure(e)
    case Success(chunks) =>
      match Summaries(chunks, model, maxLength, minLength)
      case Failure(e) => Failure(e)
      case Success(summaries) => Success(DedupSentences(JoinSpace(summaries)))
  }

  /**
   * Summarizes `text` chunk by chunk. A chunk size of zero fails before any
   * model call; a negative one makes no chunk and no call and yields "".
   */
  method SummarizeTextInChunks(text: string, chunkSize: int, maxLength: int, minLength: int, model: Summarizer)
    returns (r: Result<string>, ghost calls: seq<string>)
    ensures r == Summarize(text, chunkSize, maxLength, minLength, model)
    ensures chunkSize <= 0 ==> calls == []
    ensures chunkSize > 0 && r.Success? ==> calls == Chunk(Split(text), chunkSize).value
    ensures chunkSize > 0 && r.Failure? ==>
      && 0 < |calls| <= |Chunk(Split(text), chunkSize).value|
      && calls == Chunk(Split(text), chunkSize).value[..|calls|]
      && model(calls[|calls| - 1], maxLength, minLength).None?
      && forall j :: 0 <= j < |calls| - 1 ==> model(calls[j], maxLength, minLength).Some?
  {
    var sentences := Split(text);
    var chunked := Chunk(sentences, chunkSize);
    if chunked.Failure? {
      return Failure(chunked.error), [];
    }
    var summaries;
    summaries, calls := SummarizeChunks(chunked.value, maxLength, minLength, model);
    if summaries.Failure? {
      return Failure(summaries.error), calls;
    }
    var combined := JoinSpace(summaries.value);
    var cleaned := CleanRedundancies(combined);
    r := Success(cleaned);
  }

  /** Chunk `k` of `sentences`: sentences `k*chunkSize` up to `(k+1)*chunkSize`, or to the end, joined by spaces. */
  function ChunkText(sentences: seq<string>, chunkSize: int, k: nat): string
    requires chunkSize > 0 && k * chunkSize < |sentences|
  {
    JoinSpace(sentences[k * chunkSize..Min((k + 1) * chunkSize, |sentences|)])
  }

  /**
   * The summaries of the chunks of `sentences`, one run of `chunkSize` sentences at
   * a time, when the model answers on each of those chunks (and whatever it does
   * on other strings).
   */
  lemma SummariesOfChunks(sentences: seq<string>, chunkSize: int, maxLength: int, minLength: int, model: Summarizer,
                          summaries: seq<string>)
    requires chunkSize > 0
    requires forall k :: 0 <= k < (|sentences| + chunkSize - 1) / chunkSize && k * chunkSize < |sentences| ==>
      model(ChunkText(sentences, chunkSize, k), maxLength, minLength).Some?
    requires |summaries| == (|sentences| + chunkSize - 1) / chunkSize
    requires forall k :: 0 <= k < |summaries| && k * chunkSize < |sentences| ==>
      summaries[k] == model(ChunkText(sentences, chunkSize, k), maxLength, minLength).value
    ensures Summaries(Chunk(sentences, chunkSize).value, model, maxLength, minLength) == Success(summaries)
  {
    var chunks := Chunk(sentences, chunkSize).value;
    forall i | 0 <= i < |chunks|
      ensures i * chunkSize < |sentences| && chunks[i] == ChunkText(sentences, chunkSize, i)
    {
    }
    var r := Summaries(chunks, model, maxLength, minLength);
    assert r.Success?;
    assert r.value == summaries;
  }

  /**
   * When the model answers on every chunk, the result is the cleaned join of
   * ceil(#sentences / chunkSize) summaries, the k-th of them the model's summary
   * of the k-th run of `chunkSize` consecutive sentences joined by spaces.
   */
  lemma SummarizeOnSuccess(text: string, chunkSize: int, maxLength: int, minLength: int, model: Summarizer,
                           summaries: seq<string>)
    requires chunkSize > 0
    requires forall k :: 0 <= k < (|Split(text)| + chunkSize - 1) / chunkSize && k * chunkSize < |Split(text)| ==>
      model(ChunkText(Split(text), chunkSize, k), maxLength, minLength).Some?
    requires |summaries| == (|Split(text)| + chunkSize - 1) / chunkSize
    requires forall k :: 0 <= k < |summaries| && k * chunkSize < |Split(text)| ==>
      summaries[k] == model(ChunkText(Split(text), chunkSize, k), maxLength, minLength).value
    ensures Summarize(text, chunkSize, maxLength, minLength, model) == Success(DedupSentences(JoinSpace(summaries)))
  {
    SummariesOfChunks(Split(text), chunkSize, maxLength, minLength, model, summaries);
  }

  /** A model that raises on some chunk makes the whole summarization fail. */
  lemma SummarizeFailsWithModel(text: string, chunkSize: int, maxLength: int, minLength: int, model: Summarizer, k: nat)
    requires chunkSize > 0 && k < |Chunk(Split(text), chunkSize).value|
    requires model(Chunk(Split(text), chunkSize).value[k], maxLength, minLength).None?
    ensures Summarize(text, chunkSize, maxLength, minLength, model) == Failure(ModelInvocationFailed)
  {
    var chunks := Chunk(Split(text), chunkSize).value;
    assert !(forall i :: 0 <= i < |chunks| ==> model(chunks[i], maxLength, minLength).Some?);
  }

  /**
   * An empty article is still one sentence, "", so one chunk, "", and one model
   * call on it.
   */
  lemma SummarizeEmpty(chunkSize: int, maxLength: int, minLength: int, model: Summarizer)
    requires chunkSize > 0
    ensures Chunk(Split(""), chunkSize).value == [""]
    ensures Summarize("", chunkSize, maxLength, minLength, model)
         == match model("", maxLength, minLength)
            case None => Failure(ModelInvocationFailed)
            case Some(s) => Success(DedupSentences(s))
  {
    var chunks := Chunk(Split(""), chunkSize).value;
    assert |chunks| == 1;
    assert chunks[0] == JoinSpace([""][0 * chunkSize..Min((0 + 1) * chunkSize, 1)]);
    assert [""][0..Min(chunkSize, 1)] == [""];
    assert chunks == [""];
  }
}

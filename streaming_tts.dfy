/**
 * The validation in `generate_tts_async` and the `TTSQueue` bookkeeping of
 * server/utils/streaming_tts.py.
 *
 * The speech synthesiser is a parameter `synth`: given the text, the reference
 * audio URL and the language it either returns (audio bytes or nothing) or
 * raises.  Jobs run to completion inside the call that starts them, so one call
 * of `AddTtsTask` is one whole job.
 */
module StreamingTts {
  import opened PyStr
  import opened Wrappers

  type Bytes = seq<bv8>

  /** What one call of the synthesiser does. */
  datatype SynthOutcome = Returned(audio: Option<Bytes>) | Raised(message: string)

  /** The synthesiser: text, reference audio URL, language. */
  type Synth = (string, string, string) -> SynthOutcome

  /** The outcome of `generate_tts_async`: its result, and the text it handed to
      the synthesiser, if it called it at all. */
  datatype TtsCall = TtsCall(result: Option<Bytes>, synthesized: Option<string>)

  /** Text too short to be spoken: empty, blank, or under three characters
      once stripped (lines 33-42 and 120). */
  predicate TooShort(text: string) {
    IsBlank(text) || |Strip(text)| < 3
  }

  /** `generate_tts_async(text, reference_audio_url, language)` (lines 15-72). */
  function GenerateTtsAsync(text: string, referenceAudioUrl: string, language: string, synth: Synth): (r: TtsCall)
    ensures r.synthesized.None? <==> TooShort(text)
    ensures r.synthesized.None? ==> r.result.None?
    ensures r.synthesized.Some? ==> r.synthesized.value == Strip(text) && |Strip(text)| >= 3
    ensures r.result.Some? ==> synth(Strip(text), referenceAudioUrl, language) == Returned(r.result)
    ensures !TooShort(text) && synth(Strip(text), referenceAudioUrl, language).Raised? ==> r.result.None?
    ensures !TooShort(text) && synth(Strip(text), referenceAudioUrl, language).Returned? ==> r.result == synth(Strip(text), referenceAudioUrl, language).audio
  {
    if IsBlank(text) then TtsCall(None, None)
    else
      var textToUse := Strip(text);
      if |textToUse| < 3 then TtsCall(None, None)
      else
        match synth(textToUse, referenceAudioUrl, language)
        case Returned(audio) => TtsCall(audio, Some(textToUse))
        case Raised(_) => TtsCall(None, Some(textToUse))
  }

  /** `chunk_id or task_id` (line 105): Python's `or` keeps `chunk_id` unless it
      is `None` or `0`. */
  function EffectiveChunkId(chunkId: Option<int>, taskId: nat): (id: int)
    ensures chunkId.Some? && chunkId.value != 0 ==> id == chunkId.value
    ensures chunkId == None || chunkId == Some(0) ==> id == taskId
  {
    if chunkId.Some? && chunkId.value != 0 then chunkId.value else taskId
  }

  /** A completed chunk (the dict of lines 127-131). */
  datatype Chunk = Chunk(chunkId: int, text: string, audio: Bytes)

  /** A finished job kept in `active_tasks`: its text, the chunk id it was
      given, and what it returned. */
  datatype Job = Job(text: string, chunkId: int, result: Option<Chunk>)

  /** What `_generate_with_id` returns and enqueues (lines 110-149). */
  function JobResult(text: string, referenceAudioUrl: string, language: string, chunkId: int, synth: Synth): (r: Option<Chunk>)
    ensures TooShort(text) ==> r.None?
    ensures r.Some? ==> r.value.chunkId == chunkId && r.value.text == text && r.value.audio != []
    ensures r.Some? <==> !TooShort(text) && exists a :: synth(Strip(text), referenceAudioUrl, language) == Returned(Some(a)) && a != []
    ensures r.Some? ==> synth(Strip(text), referenceAudioUrl, language) == Returned(Some(r.value.audio))
  {
    if text == "" || |Strip(text)| < 3 then None
    else
      StripTrimmed(Strip(text));
      var call := GenerateTtsAsync(Strip(text), referenceAudioUrl, language, synth);
      if call.result.Some? && call.result.value != [] then Some(Chunk(chunkId, text, call.result.value))
      else None
  }

  /** The chunk a job put on the completed queue, if any. */
  function Enqueued(job: Job): seq<Chunk> {
    if job.result.Some? then [job.result.value] else []
  }

  class TTSQueue {
    var taskCounter: nat
    var activeTasks: seq<(nat, Job)>
    var completedQueue: seq<Chunk>
    /** How many tasks `wait_all` has dropped from `activeTasks` so far. */
    ghost var cleared: nat

    /** The ids in `activeTasks` are `cleared, cleared + 1, ...` in order and
        end just below `taskCounter` (so they are 0, 1, 2, ... until the first
        `wait_all`), and every queued chunk has audio. */
    ghost predicate Valid()
      reads this
    {
      && taskCounter == cleared + |activeTasks|
      && (forall i :: 0 <= i < |activeTasks| ==> activeTasks[i].0 == cleared + i)
      && (forall i :: 0 <= i < |completedQueue| ==> completedQueue[i].audio != [])
    }

    /** `__init__` (lines 80-83). */
    constructor ()
      ensures Valid()
      ensures taskCounter == 0 && activeTasks == [] && completedQueue == [] && cleared == 0
    {
      cleared := 0;
      taskCounter := 0;
      activeTasks := [];
      completedQueue := [];
    }

    /** `add_tts_task` (lines 85-108): the task gets the current counter as its
        id, the counter goes up by one, and the job runs with chunk id
        `chunk_id or task_id`. */
    method AddTtsTask(text: string, referenceAudioUrl: string, language: string, chunkId: Option<int>, synth: Synth)
      returns (job: Job)
      requires Valid()
      modifies this
      ensures Valid()
      ensures taskCounter == old(taskCounter) + 1 && cleared == old(cleared)
      ensures job.text == text && job.chunkId == EffectiveChunkId(chunkId, old(taskCounter))
      ensures job.result == JobResult(text, referenceAudioUrl, language, job.chunkId, synth)
      ensures activeTasks == old(activeTasks) + [(old(taskCounter), job)]
      ensures completedQueue == old(completedQueue) + Enqueued(job)
    {
      var taskId := taskCounter;
      taskCounter := taskCounter + 1;
      var id := EffectiveChunkId(chunkId, taskId);
      var result := GenerateWithId(text, referenceAudioUrl, language, id, synth);
      job := Job(text, id, result);
      activeTasks := activeTasks + [(taskId, job)];
    }

    /** `_generate_with_id` (lines 110-149): at most one chunk is enqueued, and
        only when the synthesiser returned non-empty audio. */
    method GenerateWithId(text: string, referenceAudioUrl: string, language: string, chunkId: int, synth: Synth)
      returns (r: Option<Chunk>)
      requires forall i :: 0 <= i < |completedQueue| ==> completedQueue[i].audio != []
      modifies this
      ensures r == JobResult(text, referenceAudioUrl, language, chunkId, synth)
      ensures completedQueue == old(completedQueue) + (if r.Some? then [r.value] else [])
      ensures forall i :: 0 <= i < |completedQueue| ==> completedQueue[i].audio != []
      ensures taskCounter == old(taskCounter) && activeTasks == old(activeTasks) && cleared == old(cleared)
    {
      if text == "" || |Strip(text)| < 3 {
        return None;
      }
      var call := GenerateTtsAsync(Strip(text), referenceAudioUrl, language, synth);
      if call.result.Some? && call.result.value != [] {
        var chunk := Chunk(chunkId, text, call.result.value);
        completedQueue := completedQueue + [chunk];
        return Some(chunk);
      }
      return None;
    }

    /** `wait_for_chunk` (lines 151-165): the oldest completed chunk is taken
        off the queue; on an empty queue the wait times out and gives `None`. */
    method WaitForChunk() returns (r: Option<Chunk>)
      requires Valid()
      modifies this
      ensures Valid()
      ensures old(completedQueue) == [] ==> r == None && completedQueue == []
      ensures old(completedQueue) != [] ==> r == Some(old(completedQueue)[0]) && completedQueue == old(completedQueue)[1..]
      ensures r.Some? ==> r.value.audio != []
      ensures taskCounter == old(taskCounter) && activeTasks == old(activeTasks) && cleared == old(cleared)
    {
      if completedQueue == [] {
        return None;
      }
      r := Some(completedQueue[0]);
      completedQueue := completedQueue[1..];
    }

    /** `wait_all` (lines 167-176): the tasks are forgotten, the completed queue
        is kept for the caller. */
    method WaitAll()
      requires Valid()
      modifies this
      ensures Valid()
      ensures activeTasks == [] && cleared == taskCounter
      ensures completedQueue == old(completedQueue) && taskCounter == old(taskCounter)
    {
      activeTasks := [];
      cleared := taskCounter;
    }

    /** `is_queue_empty` (lines 178-180). */
    function IsQueueEmpty(): (empty: bool)
      reads this
      ensures empty <==> GetQueueSize() == 0
    {
      completedQueue == []
    }

    /** `get_queue_size` (lines 182-184). */
    function GetQueueSize(): (n: nat)
      reads this
      ensures n == |completedQueue|
    {
      |completedQueue|
    }
  }
}

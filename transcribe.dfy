/**
 * The buffering logic of `ChunkedTranscriber`: audio accumulates in a byte
 * buffer, a window is cut off and handed to Whisper whenever the buffer holds
 * `chunk_duration_ms * bytes_per_ms` bytes (keeping a tail of
 * `overlap_ms * bytes_per_ms` bytes), a final flush drains the buffer, and the
 * partial transcripts are merged by dropping adjacent repeated words.
 *
 * Whisper itself (temp files, the subprocess, its timeout) is an oracle: a
 * function from the audio window and the file format to the text of its
 * output file, or `None` when it failed, timed out, produced no file or raised.
 */
module Transcription {
  import opened Common
  import opened Text

  /** Whisper run on one window of audio written as a file of the given format. */
  type Whisper = (seq<byte>, string) -> Option<string>

  const DefaultChunkDurationMs: int := 3000
  const DefaultOverlapMs: int := 500

  // ---------------------------------------------------------------------
  // Python slicing, including negative and out-of-range bounds

  /** Where a slice bound `k` falls in a sequence of length `n`. */
  function PyIndex(n: nat, k: int): (i: nat)
    ensures i <= n
    ensures 0 <= k <= n ==> i == k
  {
    if k < 0 then (if n + k < 0 then 0 else n + k) else if k > n then n else k
  }

  /** `s[:k]`. */
  function SliceTo(s: seq<byte>, k: int): seq<byte> { s[..PyIndex(|s|, k)] }

  /** `s[k:]`. */
  function SliceFrom(s: seq<byte>, k: int): seq<byte> { s[PyIndex(|s|, k)..] }

  // ---------------------------------------------------------------------
  // One call of `_transcribe_chunk`, as a function of the transcriber's state

  /** The part of the transcriber's state that `_transcribe_chunk` changes. */
  datatype Progress = Progress(buffer: seq<byte>, partials: seq<string>, lastText: string)

  /** The window handed to Whisper and the buffer left behind. */
  datatype Cut = Cut(processed: seq<byte>, kept: seq<byte>)

  /** The slicing of `_transcribe_chunk`: all of it when final, else `[:chunk]` processed and `[chunk - overlap:]` kept. */
  function CutBuffer(buffer: seq<byte>, isFinal: bool, chunkBytes: int, overlapBytes: int): Cut {
    if isFinal then Cut(buffer, [])
    else Cut(SliceTo(buffer, chunkBytes), SliceFrom(buffer, chunkBytes - overlapBytes))
  }

  /** `_transcribe_chunk(is_final)`: the new state and the returned text. */
  function TranscribeStep(p: Progress, isFinal: bool, chunkBytes: int, overlapBytes: int,
                          format: string, whisper: Whisper): (Progress, string)
  {
    if |p.buffer| == 0 then (p, "")
    else
      var cut := CutBuffer(p.buffer, isFinal, chunkBytes, overlapBytes);
      match whisper(cut.processed, format)
      case None => (p.(buffer := cut.kept), "")
      case Some(raw) =>
        var text := Strip(raw);
        (Progress(cut.kept, p.partials + [text], text), text)
  }

  /** `TranscribeStep` by the outcome of Whisper. */
  lemma StepOutcome(p: Progress, isFinal: bool, chunkBytes: int, overlapBytes: int, format: string, whisper: Whisper)
    requires |p.buffer| > 0
    ensures var cut := CutBuffer(p.buffer, isFinal, chunkBytes, overlapBytes);
            TranscribeStep(p, isFinal, chunkBytes, overlapBytes, format, whisper)
            == match whisper(cut.processed, format)
               case None => (p.(buffer := cut.kept), "")
               case Some(raw) => (Progress(cut.kept, p.partials + [Strip(raw)], Strip(raw)), Strip(raw))
  {
  }

  /** A non-final cut processes the first `chunk` bytes and keeps the last `overlap` of them, and what follows. */
  lemma OverlapKept(buffer: seq<byte>, chunkBytes: int, overlapBytes: int)
    requires 0 <= overlapBytes <= chunkBytes <= |buffer|
    ensures var cut := CutBuffer(buffer, false, chunkBytes, overlapBytes);
            && cut.processed == buffer[..chunkBytes]
            && cut.kept == buffer[chunkBytes - overlapBytes..]
            && cut.processed[chunkBytes - overlapBytes..] == cut.kept[..overlapBytes]
  {
  }

  /** With an overlap shorter than the window, a non-final cut strictly shrinks the buffer. */
  lemma CutShrinks(buffer: seq<byte>, chunkBytes: int, overlapBytes: int)
    requires 0 <= overlapBytes < chunkBytes <= |buffer|
    ensures |CutBuffer(buffer, false, chunkBytes, overlapBytes).kept| == |buffer| - (chunkBytes - overlapBytes)
  {
  }

  /** With `bytes_per_ms == 0` (a `wav` rate below 500) the window is empty and the whole buffer is kept. */
  lemma ZeroRateKeepsEverything(buffer: seq<byte>)
    ensures CutBuffer(buffer, false, 0, 0) == Cut([], buffer)
  {
  }

  /** A final cut processes the whole buffer and leaves it empty. */
  lemma FinalDrains(buffer: seq<byte>, chunkBytes: int, overlapBytes: int)
    ensures CutBuffer(buffer, true, chunkBytes, overlapBytes) == Cut(buffer, [])
  {
  }

  /** A step records a partial exactly when Whisper succeeds, and records the returned text. */
  lemma StepRecordsOnSuccess(p: Progress, isFinal: bool, chunkBytes: int, overlapBytes: int,
                             format: string, whisper: Whisper)
    requires |p.buffer| > 0
    ensures var cut := CutBuffer(p.buffer, isFinal, chunkBytes, overlapBytes);
            var (q, text) := TranscribeStep(p, isFinal, chunkBytes, overlapBytes, format, whisper);
            && q.buffer == cut.kept
            && (whisper(cut.processed, format).Some? ==>
                  q.partials == p.partials + [text] && q.lastText == text && IsStripped(text))
            && (whisper(cut.processed, format).None? ==>
                  text == "" && q.partials == p.partials && q.lastText == p.lastText)
  {
  }

  /** With an empty buffer a step returns `""` and changes nothing. */
  lemma StepOnEmptyBuffer(p: Progress, isFinal: bool, chunkBytes: int, overlapBytes: int,
                          format: string, whisper: Whisper)
    requires p.buffer == []
    ensures TranscribeStep(p, isFinal, chunkBytes, overlapBytes, format, whisper) == (p, "")
  {
  }

  // ---------------------------------------------------------------------
  // `_merge_transcripts`

  /** Case-insensitive word equality (`a.lower() == b.lower()`). */
  predicate SameWord(a: string, b: string) { Lower(a) == Lower(b) }

  /** The `cleaned` list: every word case-insensitively equal to its predecessor in `ws` is dropped. */
  function Dedup(ws: seq<string>): (r: seq<string>)
    ensures |r| <= |ws|
    decreases |ws|
  {
    if |ws| == 0 then []
    else
      var init := Dedup(ws[..|ws| - 1]);
      if |ws| == 1 || !SameWord(ws[|ws| - 1], ws[|ws| - 2]) then init + [ws[|ws| - 1]] else init
  }

  /** What `_merge_transcripts` returns for the given partials. */
  function Merged(parts: seq<string>): string {
    if |parts| == 0 then ""
    else if |parts| == 1 then parts[0]
    else Join(" ", Dedup(Words(Join(" ", parts))))
  }

  /** No two neighbours are case-insensitively equal. */
  predicate NoAdjacentRepeats(ws: seq<string>) {
    forall i :: 0 < i < |ws| ==> !SameWord(ws[i], ws[i - 1])
  }

  /** `a` is a subsequence of `b` (matched greedily from the front). */
  predicate IsSubsequence(a: seq<string>, b: seq<string>)
    decreases |b|
  {
    if |a| == 0 then true
    else if |b| == 0 then false
    else if a[0] == b[0] then IsSubsequence(a[1..], b[1..])
    else IsSubsequence(a, b[1..])
  }

  /** The merge keeps the first word and ends with a word equal to the last one. */
  lemma {:induction false} DedupEnds(ws: seq<string>)
    requires |ws| > 0
    ensures |Dedup(ws)| > 0
    ensures Dedup(ws)[0] == ws[0]
    ensures SameWord(Dedup(ws)[|Dedup(ws)| - 1], ws[|ws| - 1])
    decreases |ws|
  {
    if |ws| > 1 {
      var init := ws[..|ws| - 1];
      DedupEnds(init);
      assert init[0] == ws[0];
    }
  }

  /** No two adjacent words of the merge are case-insensitively equal. */
  lemma {:induction false} DedupNoAdjacentRepeats(ws: seq<string>)
    ensures NoAdjacentRepeats(Dedup(ws))
    decreases |ws|
  {
    if |ws| > 1 {
      var init := ws[..|ws| - 1];
      DedupNoAdjacentRepeats(init);
      DedupEnds(init);
    }
  }

  /** A word list without adjacent repeats is its own merge. */
  lemma {:induction false} DedupFixed(ws: seq<string>)
    requires NoAdjacentRepeats(ws)
    ensures Dedup(ws) == ws
    decreases |ws|
  {
    if |ws| > 0 {
      var init := ws[..|ws| - 1];
      assert NoAdjacentRepeats(init) by {
        forall i | 0 < i < |init| ensures !SameWord(init[i], init[i - 1]) {
          assert init[i] == ws[i] && init[i - 1] == ws[i - 1];
        }
      }
      DedupFixed(init);
      assert init + [ws[|ws| - 1]] == ws;
    }
  }

  /** Merging twice is merging once. */
  lemma DedupIdempotent(ws: seq<string>)
    ensures Dedup(Dedup(ws)) == Dedup(ws)
  {
    DedupNoAdjacentRepeats(ws);
    DedupFixed(Dedup(ws));
  }

  lemma {:induction false} SubsequenceExtend(a: seq<string>, b: seq<string>, z: string)
    requires IsSubsequence(a, b)
    ensures IsSubsequence(a, b + [z])
    decreases |b|
  {
    if |a| > 0 && |b| > 0 {
      assert (b + [z])[1..] == b[1..] + [z];
      if a[0] == b[0] {
        SubsequenceExtend(a[1..], b[1..], z);
      } else {
        SubsequenceExtend(a, b[1..], z);
      }
    }
  }

  lemma {:induction false} SubsequenceLast(b: seq<string>, z: string)
    ensures IsSubsequence([z], b + [z])
    decreases |b|
  {
    if |b| > 0 {
      assert (b + [z])[1..] == b[1..] + [z];
      if b[0] != z { SubsequenceLast(b[1..], z); }
    }
  }

  lemma {:induction false} SubsequenceBoth(a: seq<string>, b: seq<string>, z: string)
    requires IsSubsequence(a, b)
    ensures IsSubsequence(a + [z], b + [z])
    decreases |b|
  {
    if |a| == 0 {
      assert a + [z] == [z];
      SubsequenceLast(b, z);
    } else {
      assert |b| > 0;
      assert (b + [z])[1..] == b[1..] + [z];
      assert (a + [z])[0] == a[0] && (a + [z])[1..] == a[1..] + [z];
      if a[0] == b[0] {
        SubsequenceBoth(a[1..], b[1..], z);
      } else {
        SubsequenceBoth(a, b[1..], z);
      }
    }
  }

  /** The merge is a subsequence of the words it started from. */
  lemma {:induction false} DedupIsSubsequence(ws: seq<string>)
    ensures IsSubsequence(Dedup(ws), ws)
    decreases |ws|
  {
    if |ws| > 0 {
      var init := ws[..|ws| - 1];
      var last := ws[|ws| - 1];
      DedupIsSubsequence(init);
      assert init + [last] == ws;
      if |ws| == 1 || !SameWord(last, ws[|ws| - 2]) {
        SubsequenceBoth(Dedup(init), init, last);
      } else {
        SubsequenceExtend(Dedup(init), init, last);
      }
    }
  }

  /** Every word of the merge is a word of its input. */
  lemma {:induction false} DedupElements(ws: seq<string>)
    ensures forall i :: 0 <= i < |Dedup(ws)| ==> Dedup(ws)[i] in ws
    decreases |ws|
  {
    if |ws| > 0 {
      var init := ws[..|ws| - 1];
      DedupElements(init);
      forall i | 0 <= i < |Dedup(init)| ensures Dedup(init)[i] in ws {
        var j :| 0 <= j < |init| && init[j] == Dedup(init)[i];
        assert ws[j] == init[j];
      }
    }
  }

  /**
   * Two or more partials: the words of the merged text are the words of all
   * partials with every adjacent case-insensitive repeat dropped, so none is
   * left and the order of the rest is kept.
   */
  lemma MergedWords(parts: seq<string>)
    requires |parts| >= 2
    ensures var all := Words(Join(" ", parts));
            && Words(Merged(parts)) == Dedup(all)
            && NoAdjacentRepeats(Words(Merged(parts)))
            && IsSubsequence(Words(Merged(parts)), all)
  {
    var all := Words(Join(" ", parts));
    DedupElements(all);
    WordsJoin(Dedup(all));
    DedupNoAdjacentRepeats(all);
    DedupIsSubsequence(all);
  }

  /** A single partial is returned verbatim, repeated words and all. */
  lemma MergedSingle(t: string)
    ensures Merged([t]) == t
  {
  }

  // ---------------------------------------------------------------------
  // The transcriber object

  /** The `ChunkedTranscriber` class. */
  class ChunkedTranscriber {
    const chunkDurationMs: int
    const overlapMs: int
    const model: string
    const language: string

    var audioBuffer: seq<byte>
    var audioFormat: string
    var sampleRate: int
    var partialTranscripts: seq<string>
    var lastChunkText: string
    var bytesPerMs: int

    /** The state `_transcribe_chunk` works on. */
    function State(): Progress
      reads this
    {
      Progress(audioBuffer, partialTranscripts, lastChunkText)
    }

    /** `chunk_duration_ms * bytes_per_ms`. */
    function ChunkBytes(): int
      reads this
    {
      chunkDurationMs * bytesPerMs
    }

    /** `overlap_ms * bytes_per_ms`. */
    function OverlapBytes(): int
      reads this
    {
      overlapMs * bytesPerMs
    }

    constructor (chunkDurationMs: int, overlapMs: int, model: string, language: string)
      ensures this.chunkDurationMs == chunkDurationMs && this.overlapMs == overlapMs
      ensures this.model == model && this.language == language
      ensures State() == Progress([], [], "")
      ensures audioFormat == "webm" && sampleRate == 48000 && bytesPerMs == 2
    {
      this.chunkDurationMs := chunkDurationMs;
      this.overlapMs := overlapMs;
      this.model := model;
      this.language := language;
      audioBuffer := [];
      audioFormat := "webm";
      sampleRate := 48000;
      partialTranscripts := [];
      lastChunkText := "";
      bytesPerMs := 2;
    }

    /** `set_format`: records the format and rate, and re-estimates `bytes_per_ms` for the known formats. */
    method SetFormat(format: string, rate: int)
      modifies this
      ensures audioFormat == format && sampleRate == rate
      ensures (format == "webm" || format == "opus") ==> bytesPerMs == 2
      ensures format == "mp4" ==> bytesPerMs == 4
      ensures format == "wav" ==> bytesPerMs == rate * 2 / 1000
      ensures format !in {"webm", "opus", "mp4", "wav"} ==> bytesPerMs == old(bytesPerMs)
      ensures State() == old(State())
    {
      audioFormat := format;
      sampleRate := rate;
      if format == "webm" || format == "opus" {
        bytesPerMs := 2;
      } else if format == "mp4" {
        bytesPerMs := 4;
      } else if format == "wav" {
        // Python's `//` floors; with the positive divisor 1000 so does Dafny's `/`.
        bytesPerMs := rate * 2 / 1000;
      }
    }

    /** `_transcribe_chunk(is_final)`. */
    method TranscribeChunk(isFinal: bool, whisper: Whisper) returns (text: string)
      modifies this
      ensures audioFormat == old(audioFormat) && sampleRate == old(sampleRate) && bytesPerMs == old(bytesPerMs)
      ensures (State(), text) == TranscribeStep(old(State()), isFinal, ChunkBytes(), OverlapBytes(), audioFormat, whisper)
    {
      if |audioBuffer| == 0 {
        return "";
      }
      ghost var before := State();
      ghost var chunkBytes, overlapBytes, format := ChunkBytes(), OverlapBytes(), audioFormat;
      // The slicing of the final and the non-final branch.
      var cut := CutBuffer(audioBuffer, isFinal, chunkDurationMs * bytesPerMs, overlapMs * bytesPerMs);
      var toProcess := cut.processed;
      audioBuffer := cut.kept;
      var output := whisper(toProcess, audioFormat);
      StepOutcome(before, isFinal, chunkBytes, overlapBytes, format, whisper);
      if output.None? {
        return "";
      }
      text := Strip(output.value);
      partialTranscripts := partialTranscripts + [text];
      lastChunkText := text;
    }

    /** `feed_audio`: always appends; transcribes one window once the buffer holds a full chunk. */
    method FeedAudio(chunk: seq<byte>, whisper: Whisper) returns (r: Option<string>)
      modifies this
      ensures var buffered := old(audioBuffer) + chunk;
              if |buffered| >= old(ChunkBytes()) then
                var (p, text) := TranscribeStep(old(State()).(buffer := buffered), false,
                                                old(ChunkBytes()), old(OverlapBytes()), old(audioFormat), whisper);
                r == Some(text) && State() == p
              else
                r == None && State() == old(State()).(buffer := buffered)
      ensures audioFormat == old(audioFormat) && sampleRate == old(sampleRate) && bytesPerMs == old(bytesPerMs)
    {
      audioBuffer := audioBuffer + chunk;
      if |audioBuffer| >= chunkDurationMs * bytesPerMs {
        var partial := TranscribeChunk(false, whisper);
        return Some(partial);
      }
      return None;
    }

    /** `_merge_transcripts`. */
    method MergeTranscripts() returns (r: string)
      ensures r == Merged(partialTranscripts)
    {
      if |partialTranscripts| == 0 {
        return "";
      }
      if |partialTranscripts| == 1 {
        return partialTranscripts[0];
      }
      var words := Words(Join(" ", partialTranscripts));
      var cleaned: seq<string> := [];
      var i := 0;
      while i < |words|
        invariant 0 <= i <= |words|
        invariant cleaned == Dedup(words[..i])
      {
        assert words[..i + 1][..i] == words[..i];
        if i == 0 || Lower(words[i]) != Lower(words[i - 1]) {
          cleaned := cleaned + [words[i]];
        }
        i := i + 1;
      }
      assert words[..i] == words;
      r := Join(" ", cleaned);
    }

    /** `reset`: empties the buffer and the partials; format, rate and durations stay. */
    method Reset()
      modifies this
      ensures State() == Progress([], [], "")
      ensures audioFormat == old(audioFormat) && sampleRate == old(sampleRate) && bytesPerMs == old(bytesPerMs)
    {
      audioBuffer := [];
      partialTranscripts := [];
      lastChunkText := "";
    }

    /** `finalize`: flushes whatever is buffered, merges every partial, then resets. */
    method Finalize(whisper: Whisper) returns (full: string)
      modifies this
      ensures var flushed := if |old(audioBuffer)| > 0
                             then TranscribeStep(old(State()), true, old(ChunkBytes()), old(OverlapBytes()), old(audioFormat), whisper).0
                             else old(State());
              full == Merged(flushed.partials)
      ensures State() == Progress([], [], "")
      ensures audioFormat == old(audioFormat) && sampleRate == old(sampleRate) && bytesPerMs == old(bytesPerMs)
    {
      if |audioBuffer| > 0 {
        var _ := TranscribeChunk(true, whisper);
      }
      full := MergeTranscripts();
      Reset();
    }
  }
}

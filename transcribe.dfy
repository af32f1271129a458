/** The chunking and time arithmetic of `transcribe_audio` in appold.py: the audio is
    cut into one-minute slices, each slice is uploaded as `segment_{i}.wav` and sent
    to the speech service, and every recognised result becomes a subtitle timed
    against the slice's offset in the whole audio. Times are integer milliseconds
    (pydub measures audio in milliseconds); the service is a function from the
    uploaded object's URI to its results. */
module Transcribe {
  import opened Text
  import opened Segments

  /** `segment_length_ms = 60 * 1000`. */
  const CHUNK_MS: nat := 60000

  /** Half a second per word: how far before its end a subtitle starts. */
  const WORD_MS: nat := 500

  /** One entry of `response.results`: `result_end_time` (relative to the slice) and
      the transcript of its first alternative. */
  datatype Recognized = Recognized(endMs: nat, transcript: string)

  /** The tuple `(start_time, end_time, transcript)`; the start may be negative. */
  datatype Subtitle = Subtitle(start: int, end: int, text: string)

  // ------------------------------------------------------------------ the slices

  /** `[audio[i:i + segment_length_ms] for i in range(0, len(audio), segment_length_ms)]`:
      slicing past the end stops at the end of the audio. */
  function Chunks(lengthMs: nat): seq<Span> {
    FixedSpans(lengthMs, CHUNK_MS)
  }

  /** The slices cover the audio from 0 to its end without gaps; each is non-empty
      and at most a minute long, only the last may be shorter, and slice `k` starts
      at `k` minutes. */
  lemma ChunksCover(lengthMs: nat)
    ensures lengthMs == 0 <==> Chunks(lengthMs) == []
    ensures lengthMs > 0 ==> Chunks(lengthMs)[0].start == 0
    ensures lengthMs > 0 ==> Chunks(lengthMs)[|Chunks(lengthMs)| - 1].end == lengthMs
    ensures forall k :: 0 <= k < |Chunks(lengthMs)| ==>
              Chunks(lengthMs)[k].start == CHUNK_MS * k
              && Chunks(lengthMs)[k].start < Chunks(lengthMs)[k].end <= Chunks(lengthMs)[k].start + CHUNK_MS
    ensures forall k :: 0 <= k < |Chunks(lengthMs)| - 1 ==>
              Chunks(lengthMs)[k].end == Chunks(lengthMs)[k].start + CHUNK_MS == Chunks(lengthMs)[k + 1].start
  {
    FixedSpansCover(lengthMs, CHUNK_MS);
    SpansFromStarts(lengthMs, CHUNK_MS, 0);
    SpansFromBounded(lengthMs, CHUNK_MS, 0);
    SpansFromContiguous(lengthMs, CHUNK_MS, 0);
    var s := SpansFrom(lengthMs, CHUNK_MS, 0);
    assert Chunks(lengthMs) == s;
    forall k | 0 <= k < |s| - 1
      ensures s[k].end == s[k].start + CHUNK_MS == s[k + 1].start
    {
      SpansFromAt(lengthMs, CHUNK_MS, 0, k);
      SpansFromAt(lengthMs, CHUNK_MS, 0, k + 1);
    }
  }

  // ------------------------------------------------------------------ naming

  /** `f'segment_{i}.wav'`, also the object name in the bucket. */
  function ChunkName(i: nat): string {
    "segment_" + NatToString(i) + ".wav"
  }

  /** What `upload_to_gcs` returns: `f'gs://{bucket_name}/{destination_blob_name}'`. */
  function ChunkUri(bucket: string, i: nat): string {
    "gs://" + bucket + "/" + ChunkName(i)
  }

  /** Different slices of one run go to different objects. */
  lemma ChunkNameInjective(i: nat, j: nat)
    ensures ChunkName(i) == ChunkName(j) <==> i == j
  {
    if ChunkName(i) == ChunkName(j) {
      var a, b := ChunkName(i), ChunkName(j);
      assert a[8..|a| - 4] == NatToString(i);
      assert b[8..|b| - 4] == NatToString(j);
      NatToStringDigits(i);
      NatToStringDigits(j);
    }
  }

  // ------------------------------------------------------------------ timing

  /** A result of the slice at `offset`: it ends at `offset + result_end_time` and
      starts half a second per word of its transcript earlier. */
  function Caption(offset: int, r: Recognized): Subtitle {
    var end := offset + r.endMs;
    Subtitle(end - WORD_MS * |SplitWords(r.transcript)|, end, r.transcript)
  }

  /** A subtitle ends no earlier than its slice's offset, lasts half a second per
      word, and starts before the offset exactly when its words need more time than
      the result's end leaves. */
  lemma CaptionTiming(offset: int, r: Recognized)
    ensures Caption(offset, r).end >= offset
    ensures Caption(offset, r).end - Caption(offset, r).start == WORD_MS * |SplitWords(r.transcript)|
    ensures Caption(offset, r).start < offset <==> r.endMs < WORD_MS * |SplitWords(r.transcript)|
    ensures Caption(offset, r).text == r.transcript
  {
  }

  /** One word recognised 0.4 s into the second minute yields a subtitle that starts
      in the first minute. */
  lemma StartPrecedesOffset()
    ensures Caption(CHUNK_MS, Recognized(400, "hola")).start == 59900
  {
    assert JoinSpace(["hola"]) == "hola";
    SplitWordsJoinSpace(["hola"]);
  }

  /** The subtitles of one slice, in the order of its results. */
  function ChunkCaptions(offset: int, rs: seq<Recognized>): (cs: seq<Subtitle>)
    ensures |cs| == |rs|
  {
    seq(|rs|, k requires 0 <= k < |rs| => Caption(offset, rs[k]))
  }

  lemma ChunkCaptionsSnoc(offset: int, rs: seq<Recognized>, j: nat)
    requires j < |rs|
    ensures ChunkCaptions(offset, rs[..j + 1]) == ChunkCaptions(offset, rs[..j]) + [Caption(offset, rs[j])]
  {
  }

  /** The subtitles of the first `n` slices. */
  function Transcript(n: nat, bucket: string, recognize: string -> seq<Recognized>): seq<Subtitle>
  {
    if n == 0 then []
    else Transcript(n - 1, bucket, recognize) + ChunkCaptions(CHUNK_MS * (n - 1), recognize(ChunkUri(bucket, n - 1)))
  }

  /** `transcribe_audio(audio_path, bucket_name)` over audio `lengthMs` long: one
      upload and one recognition per slice, `start_time_offset` growing by 60 s per
      slice. */
  method TranscribeAudio(lengthMs: nat, bucket: string, recognize: string -> seq<Recognized>)
    returns (subtitles: seq<Subtitle>)
    ensures subtitles == Transcript(|Chunks(lengthMs)|, bucket, recognize)
  {
    var segments := Chunks(lengthMs);
    subtitles := [];
    var offset := 0;
    var i := 0;
    while i < |segments|
      invariant 0 <= i <= |segments|
      invariant offset == CHUNK_MS * i
      invariant subtitles == Transcript(i, bucket, recognize)
    {
      var results := recognize(ChunkUri(bucket, i));
      ghost var before := subtitles;
      var j := 0;
      while j < |results|
        invariant 0 <= j <= |results|
        invariant subtitles == before + ChunkCaptions(offset, results[..j])
      {
        ChunkCaptionsSnoc(offset, results, j);
        subtitles := subtitles + [Caption(offset, results[j])];
        j := j + 1;
      }
      assert results[..j] == results;
      offset := offset + CHUNK_MS;
      i := i + 1;
    }
  }

  /** Every subtitle comes from some slice `i` and one of its results, timed against
      the slice's start `i` minutes into the audio; and every result of every slice
      gives a subtitle. */
  lemma {:induction false} TranscriptFrom(n: nat, bucket: string, recognize: string -> seq<Recognized>)
    ensures forall s :: s in Transcript(n, bucket, recognize) ==>
              exists i, j :: 0 <= i < n && 0 <= j < |recognize(ChunkUri(bucket, i))|
                             && s == Caption(CHUNK_MS * i, recognize(ChunkUri(bucket, i))[j])
    ensures forall i, j :: 0 <= i < n && 0 <= j < |recognize(ChunkUri(bucket, i))| ==>
              Caption(CHUNK_MS * i, recognize(ChunkUri(bucket, i))[j]) in Transcript(n, bucket, recognize)
  {
    if n > 0 {
      TranscriptFrom(n - 1, bucket, recognize);
      var rs := recognize(ChunkUri(bucket, n - 1));
      var last := ChunkCaptions(CHUNK_MS * (n - 1), rs);
      assert Transcript(n, bucket, recognize) == Transcript(n - 1, bucket, recognize) + last;
      forall s | s in last
        ensures exists j :: 0 <= j < |rs| && s == Caption(CHUNK_MS * (n - 1), rs[j])
      {
        var j :| 0 <= j < |last| && last[j] == s;
      }
      forall i, j | 0 <= i < n && 0 <= j < |recognize(ChunkUri(bucket, i))|
        ensures Caption(CHUNK_MS * i, recognize(ChunkUri(bucket, i))[j]) in Transcript(n, bucket, recognize)
      {
        if i == n - 1 {
          assert last[j] == Caption(CHUNK_MS * i, recognize(ChunkUri(bucket, i))[j]);
        }
      }
    }
  }

  /** The offset of slice `i` is where that slice starts in the audio. */
  lemma OffsetIsChunkStart(lengthMs: nat, i: nat)
    requires i < |Chunks(lengthMs)|
    ensures Chunks(lengthMs)[i].start == CHUNK_MS * i
  {
    ChunksCover(lengthMs);
  }
}

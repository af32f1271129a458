/** Fragment arithmetic and naming shared by the reel pipelines: the audio
    repeat-to-fit rule of procesar-video.py, `process_single_reel` in
    crear-reels/video_processing.py, and the fragment loop of `process_video` in
    process-video-with-subtitles.py. Times are integer milliseconds. */
module Reels {
  import opened Text
  import opened Segments

  /** `FRAGMENT_DURATION = 90` seconds. */
  const FRAGMENT_MS := 90000
  /** The literal `90` in `subclip(0, min(90, video_fragment.duration))`. */
  const MUSIC_CAP_MS := 90000

  // ------------------------------------------------------------------ names

  /** `f"{tag}_{index}_{video}"`, the shape of every fragment and reel file name. */
  function IndexedName(tag: string, index: int, video: string): string {
    tag + ['_'] + (IntToString(index) + ['_'] + video)
  }

  /** `f"reel_{fragment_index}_{video_filename}"`. */
  function ReelName(index: int, video: string): string {
    IndexedName("reel", index, video)
  }

  /** `f"fragment_{fragment_index}_{video_filename}"`. */
  function FragmentName(index: int, video: string): string {
    IndexedName("fragment", index, video)
  }

  /** `f"{OUTPUT_FOLDER}/{fragment_filename}"` with `OUTPUT_FOLDER = 'reels'`. */
  function ReelKey(name: string): string {
    "reels" + ("/" + name)
  }

  /** Splitting an indexed name on `_` gives the tag, the index digits and then the
      pieces of the video name, whatever `_` the video name itself holds. */
  lemma IndexedNameSplit(tag: string, index: int, video: string)
    requires '_' !in tag
    ensures Split(IndexedName(tag, index, video), '_') == [tag, IntToString(index)] + Split(video, '_')
  {
    var d := IntToString(index);
    var rest := d + ['_'] + video;
    IntToStringClean(index);
    SplitCons(d, '_', video);
    SplitCons(tag, '_', rest);
    assert [tag] + ([d] + Split(video, '_')) == [tag, d] + Split(video, '_');
  }

  /** The name can be read back: the second `_` field parses as the index and the
      remaining fields, joined with `_`, are the video name. */
  lemma IndexedNameParses(tag: string, index: int, video: string)
    requires '_' !in tag
    ensures |Split(IndexedName(tag, index, video), '_')| >= 3
    ensures Split(IndexedName(tag, index, video), '_')[0] == tag
    ensures ParseInt(Split(IndexedName(tag, index, video), '_')[1]) == Some(index)
    ensures Join(Split(IndexedName(tag, index, video), '_')[2..], '_') == video
  {
    IndexedNameSplit(tag, index, video);
    var parts := Split(IndexedName(tag, index, video), '_');
    assert parts[2..] == Split(video, '_');
    JoinSplit(video, '_');
    ParseIntToString(index);
  }

  /** Distinct (index, video) pairs get distinct names, so no two fragments of a run
      overwrite each other's key. */
  lemma IndexedNameInjective(tag: string, i: int, v: string, j: int, w: string)
    requires '_' !in tag
    requires IndexedName(tag, i, v) == IndexedName(tag, j, w)
    ensures i == j && v == w
  {
    IndexedNameParses(tag, i, v);
    IndexedNameParses(tag, j, w);
  }

  // ------------------------------------------------------------------ repeat_audio_to_fit_video

  /** What `repeat_audio_to_fit_video` returns: the audio cut to the video's length,
      the audio repeated `repetitions` times and cut, or the `ZeroDivisionError` of
      `video_duration // 0`. */
  datatype AudioFit = Trimmed(length: nat) | Looped(repetitions: nat, length: nat) | ZeroDivision

  /** `audio.subclip(0, video)` when the audio is long enough; otherwise
      `int(video // audio) + 1` copies cut to `int(video * 1000)` milliseconds. */
  function RepeatAudioToFit(audio: nat, video: nat): AudioFit {
    if audio >= video then Trimmed(video)
    else if audio == 0 then ZeroDivision
    else
      var repetitions := video / audio + 1;
      Looped(repetitions, Min(repetitions * audio, video))
  }

  lemma DivBounds(a: nat, b: nat)
    requires b > 0
    ensures (a / b) * b <= a < (a / b + 1) * b
  {
    var q, r := a / b, a % b;
    assert a == q * b + r;
    MulSucc(q, b);
  }

  /** Both branches give audio exactly as long as the video; the repeat branch has
      more than enough copies before the cut, and one fewer copy would not exceed
      the video (it would equal it when the audio length divides the video's); only
      silent audio for a non-empty video fails. */
  lemma RepeatAudioFits(audio: nat, video: nat)
    ensures RepeatAudioToFit(audio, video).ZeroDivision? <==> audio == 0 < video
    ensures !RepeatAudioToFit(audio, video).ZeroDivision? ==> RepeatAudioToFit(audio, video).length == video
    ensures RepeatAudioToFit(audio, video).Looped? ==>
              RepeatAudioToFit(audio, video).repetitions * audio > video
              && (RepeatAudioToFit(audio, video).repetitions - 1) * audio <= video
  {
    if 0 < audio < video {
      DivBounds(video, audio);
    }
  }

  // ------------------------------------------------------------------ process_single_reel

  /** What `process_single_reel` writes and returns: the video cut, the voice and
      music cuts laid under it, whether subtitles were burnt in, the file name and the
      S3 key. */
  datatype Reel = Reel(video: Span, voice: Span, music: Span, subtitled: bool, filename: string, key: string)

  /** `process_single_reel(..., start_time, fragment_index, ..., subtitles)` for a video
      of `duration`; `cues` is the number of subtitles passed (`None` counts as none). */
  function ProcessSingleReel(video: string, start: int, index: int, duration: int, cues: nat): Reel {
    var end := Min(start + FRAGMENT_MS, duration);
    Reel(Span(start, end), Span(start, end), Span(0, Min(MUSIC_CAP_MS, end - start)),
         cues > 0, ReelName(index, video), ReelKey(ReelName(index, video)))
  }

  /** For a start inside the video, the fragment lies within `[start, duration]` and
      is at most 90 s; the voice covers the same span; the music always starts at 0
      and lasts the fragment or 90 s, whichever is shorter; subtitles are burnt in
      exactly when some were given. */
  lemma ReelSpans(video: string, start: int, index: int, duration: int, cues: nat)
    requires start < duration
    ensures var r := ProcessSingleReel(video, start, index, duration, cues);
      && r.video.start == start < r.video.end <= duration
      && r.video.end - r.video.start <= FRAGMENT_MS
      && r.voice == r.video
      && r.music.start == 0 < r.music.end <= MUSIC_CAP_MS
      && r.music.end <= r.video.end - r.video.start
      && (r.subtitled <==> cues > 0)
  {
  }

  /** Different file names go to different keys. */
  lemma ReelKeyInjective(a: string, b: string)
    requires ReelKey(a) == ReelKey(b)
    ensures a == b
  {
    var ka, kb := ReelKey(a), ReelKey(b);
    assert |ka| == 6 + |a| && |kb| == 6 + |b|;
    assert forall i :: 0 <= i < |a| ==> ka[6 + i] == a[i];
    assert forall i :: 0 <= i < |b| ==> kb[6 + i] == b[i];
  }

  /** The file name and key are fixed by the index and the video name alone: the
      unsubtitled and the subtitled pass over the same fragment write the same
      object, and different fragments never share one. */
  lemma ReelKeyIdentifiesFragment(video: string, start: int, index: int, duration: int, cues: nat,
                                  video': string, start': int, index': int, duration': int, cues': nat)
    ensures var r := ProcessSingleReel(video, start, index, duration, cues);
            var r' := ProcessSingleReel(video', start', index', duration', cues');
      r.key == r'.key <==> (index == index' && video == video')
  {
    var r := ProcessSingleReel(video, start, index, duration, cues);
    var r' := ProcessSingleReel(video', start', index', duration', cues');
    if r.key == r'.key {
      ReelKeyInjective(r.filename, r'.filename);
      IndexedNameInjective("reel", index, video, index', video');
    }
  }

  /** `process_single_reel` as written: when subtitles are given it calls
      `add_subtitles(video_fragment, subtitles)`, but `add_subtitles` takes three
      parameters `(get_frame, t, subtitles)`, so the call raises a TypeError and
      nothing is written or uploaded. `None` stands for that error. */
  function ProcessSingleReelAsWritten(video: string, start: int, index: int, duration: int, cues: nat): Option<Reel> {
    if cues > 0 then None else Some(ProcessSingleReel(video, start, index, duration, cues))
  }

  /** As written, no call ever produces a subtitled reel: every call that was given
      subtitles fails, and the others agree with the corrected `ProcessSingleReel`,
      which burns the subtitles in exactly when some are given. */
  lemma SubtitledReelFailsAsWritten(video: string, start: int, index: int, duration: int, cues: nat)
    ensures var r := ProcessSingleReelAsWritten(video, start, index, duration, cues);
            && (r.None? <==> cues > 0)
            && (r.Some? ==> !r.value.subtitled && r.value == ProcessSingleReel(video, start, index, duration, cues))
            && (ProcessSingleReel(video, start, index, duration, cues).subtitled <==> cues > 0)
  {
  }

  // ------------------------------------------------------------------ process_video

  /** One fragment written by `process_video`: the video cut, the voice and music cuts,
      the file name and the S3 key. */
  datatype Fragment = Fragment(video: Span, voice: Span, music: Span, name: string, key: string)

  /** The fragment for `i` seconds into a video of `duration` ms:
      `end_time = min(i + 90, duration)`, named with the 0-based `i // 90`. */
  function SubtitledFragment(video: string, i: int, duration: int): Fragment {
    var start := i * 1000;
    var end := Min(start + FRAGMENT_MS, duration);
    Fragment(Span(start, end), Span(start, end), Span(0, Min(MUSIC_CAP_MS, end - start)),
             FragmentName(i / 90, video), ReelKey(FragmentName(i / 90, video)))
  }

  /** One fragment per second-span of `range(0, int(duration), 90)`, in order. */
  function FragmentsOf(video: string, duration: int, spans: seq<Span>): seq<Fragment> {
    if spans == [] then []
    else [SubtitledFragment(video, spans[0].start, duration)] + FragmentsOf(video, duration, spans[1..])
  }

  lemma {:induction false} FragmentsOfSnoc(video: string, duration: int, spans: seq<Span>, s: Span)
    ensures FragmentsOf(video, duration, spans + [s])
            == FragmentsOf(video, duration, spans) + [SubtitledFragment(video, s.start, duration)]
  {
    if spans != [] {
      assert (spans + [s])[1..] == spans[1..] + [s];
      FragmentsOfSnoc(video, duration, spans[1..], s);
    }
  }

  lemma {:induction false} FragmentsOfLength(video: string, duration: int, spans: seq<Span>)
    ensures |FragmentsOf(video, duration, spans)| == |spans|
  {
    if spans != [] {
      FragmentsOfLength(video, duration, spans[1..]);
    }
  }

  lemma {:induction false} FragmentsOfAt(video: string, duration: int, spans: seq<Span>, k: nat)
    requires k < |spans|
    ensures |FragmentsOf(video, duration, spans)| == |spans|
    ensures FragmentsOf(video, duration, spans)[k] == SubtitledFragment(video, spans[k].start, duration)
  {
    FragmentsOfLength(video, duration, spans);
    if k > 0 {
      FragmentsOfAt(video, duration, spans[1..], k - 1);
    }
  }

  /** The loop of `process_video` over `range(0, int(video_clip.duration), 90)`
      (`int` of a non-negative duration in seconds is `duration / 1000`). */
  method ProcessVideo(video: string, duration: nat) returns (fragments: seq<Fragment>)
    ensures fragments == FragmentsOf(video, duration, FixedSpans(duration / 1000, 90))
  {
    var seconds := duration / 1000;
    fragments := [];
    ghost var done: seq<Span> := [];
    var i := 0;
    while i < seconds
      invariant done + SpansFrom(seconds, 90, i) == FixedSpans(seconds, 90)
      invariant fragments == FragmentsOf(video, duration, done)
      decreases seconds - i
    {
      CutStep(seconds, 90, i, done);
      FragmentsOfSnoc(video, duration, done, Span(i, Min(i + 90, seconds)));
      fragments := fragments + [SubtitledFragment(video, i, duration)];
      done := done + [Span(i, Min(i + 90, seconds))];
      i := i + 90;
    }
    CutDone(seconds, 90, i, done);
  }

  /** Fragment `k` starts at `90 k` seconds, below `int(duration)`, ends at
      `min(start + 90 s, duration)`, carries the voice over the same span and music
      from 0, and is named `fragment_<k>_<video>` with the 0-based `k`; there are
      `ceil(int(duration) / 90)` fragments. */
  lemma SubtitledFragmentsShape(video: string, duration: nat, k: nat)
    requires k < |FragmentsOf(video, duration, FixedSpans(duration / 1000, 90))|
    ensures var f := FragmentsOf(video, duration, FixedSpans(duration / 1000, 90))[k];
      && f.video.start == k * FRAGMENT_MS
      && f.video.start < (duration / 1000) * 1000
      && f.video.end == Min(f.video.start + FRAGMENT_MS, duration)
      && f.voice == f.video
      && f.music == Span(0, Min(MUSIC_CAP_MS, f.video.end - f.video.start))
      && f.name == FragmentName(k, video)
      && f.key == "reels/" + f.name
  {
    var seconds := duration / 1000;
    var spans := FixedSpans(seconds, 90);
    FragmentsOfLength(video, duration, spans);
    FragmentsOfAt(video, duration, spans, k);
    SpansFromStarts(seconds, 90, 0);
    SpansFromBounded(seconds, 90, 0);
    assert spans[k].start == k * 90;
    assert (k * 90) / 90 == k;
  }

  /** How many fragments `process_video` writes: `n - 1` blocks of 90 s fall short of
      `int(duration)` and `n` cover it. */
  lemma SubtitledFragmentCount(video: string, duration: nat)
    ensures var n := |FragmentsOf(video, duration, FixedSpans(duration / 1000, 90))|;
      (duration < 1000 ==> n == 0)
      && (duration >= 1000 ==> (n - 1) * 90 < duration / 1000 <= n * 90)
  {
    FragmentsOfLength(video, duration, FixedSpans(duration / 1000, 90));
    FixedSpansCover(duration / 1000, 90);
  }

  /** The loop stops at the last multiple of 90 s below `int(duration)`: when
      `int(duration)` is itself a multiple of 90 and the duration has a fractional
      part, the last fragment ends at `int(duration)` and the rest of the video is
      never written. */
  lemma SubtitledTailDropped(video: string, duration: nat)
    requires duration >= 1000 && (duration / 1000) % 90 == 0 && duration % 1000 != 0
    ensures var fs := FragmentsOf(video, duration, FixedSpans(duration / 1000, 90));
      fs != [] && fs[|fs| - 1].video.end == (duration / 1000) * 1000 < duration
  {
    var seconds := duration / 1000;
    var spans := FixedSpans(seconds, 90);
    var fs := FragmentsOf(video, duration, spans);
    FixedSpansCover(seconds, 90);
    FragmentsOfAt(video, duration, spans, |spans| - 1);
    SpansFromStarts(seconds, 90, 0);
    var n := |spans|;
    assert spans[n - 1].start == (n - 1) * 90;
    var q := seconds / 90;
    assert seconds == q * 90;
    assert n - 1 < q;
    assert fs[n - 1].video.start == (seconds - 90) * 1000;
  }
}

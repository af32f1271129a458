/** The resumable fragment loops of procesar-video.py (`process_video_and_audio`)
    and crear-reels/main.py (`main`). Each run lists the bucket, loads the ledger
    once, skips the videos it marks complete, and for every other video resumes at
    `start = last * 90 s`, `index = last + 1`, appending one `incomplete` record per
    fragment after that fragment's upload and one `complete` record at the end.
    Uploads are events; ledger records are both events and lines appended to the
    log file. */
module Resume {
  import opened Text
  import opened Files
  import opened Ledger
  import opened Segments
  import opened Reels

  /** Which script runs the loop. crear-reels renders each fragment twice, the second
      time with the subtitles its transcription yields; `cues(video, index)` is how
      many there are (the transcription service is not modelled). */
  datatype Pipeline = ProcesarVideo | CrearReels(cues: (string, int) -> nat)

  /** What a run does, in order: an upload of a rendered fragment, or a ledger
      record `video,index,status`. */
  datatype Event = Upload(file: Rendered, subtitled: bool) | Save(video: string, index: int, complete: bool)

  /** A rendered fragment: `fragment_{index}_{video}` in procesar-video,
      `reel_{index}_{video}` in crear-reels. */
  datatype Rendered = FragmentFile(index: int, video: string) | ReelFile(index: int, video: string)

  /** The S3 key a rendered fragment is uploaded to, under `reels/`. */
  function Key(f: Rendered): string {
    match f
    case FragmentFile(index, video) => ReelKey(FragmentName(index, video))
    case ReelFile(index, video) => ReelKey(ReelName(index, video))
  }

  /** How a run ends. */
  datatype Outcome =
    | NoInputs              // the early `return` when a listing has no usable file
    | LedgerError(field: string)  // `int(parts[1])` raised on this field while loading the ledger
    | Finished

  function Line(e: Event): string
    requires e.Save?
  {
    RecordLine(e.video, e.index, e.complete)
  }

  /** The ledger lines a sequence of events appends, in order. */
  function Recorded(events: seq<Event>): seq<string>
  {
    if events == [] then []
    else (if events[0].Save? then [Line(events[0])] else []) + Recorded(events[1..])
  }

  lemma {:induction false} RecordedAppend(a: seq<Event>, b: seq<Event>)
    ensures Recorded(a + b) == Recorded(a) + Recorded(b)
  {
    if a == [] {
      assert a + b == b;
    } else {
      assert (a + b)[1..] == a[1..] + b;
      RecordedAppend(a[1..], b);
    }
  }

  lemma RecordedSnoc(events: seq<Event>, e: Event)
    ensures Recorded(events + [e]) == Recorded(events) + (if e.Save? then [Line(e)] else [])
  {
    RecordedAppend(events, [e]);
    assert [e][1..] == [];
  }

  // ------------------------------------------------------------------ inputs

  /** `[obj['Key'] for obj in objects if ok(obj['Key'])]`. */
  function Select(keys: seq<string>, ok: string -> bool): (r: seq<string>)
    ensures forall k :: k in r ==> k in keys && ok(k)
    ensures forall k :: k in keys && ok(k) ==> k in r
  {
    if keys == [] then []
    else (if ok(keys[0]) then [keys[0]] else []) + Select(keys[1..], ok)
  }

  predicate IsVideoKey(k: string) {
    EndsWith(k, ".mp4")
  }

  predicate IsAudioKey(k: string) {
    EndsWith(k, ".mp3") || EndsWith(k, ".wav")
  }

  /** A listing yields nothing exactly when none of its keys is accepted. */
  lemma SelectEmpty(keys: seq<string>, ok: string -> bool)
    ensures Select(keys, ok) == [] <==> forall k :: k in keys ==> !ok(k)
  {
    if Select(keys, ok) != [] {
      assert Select(keys, ok)[0] in Select(keys, ok);
    }
  }

  // ------------------------------------------------------------------ one video

  /** The entry's `last_fragment`, or 0 for a video the ledger does not name. */
  function LastFragment(m: map<string, Entry>, video: string): int {
    if video in m then m[video].lastFragment else 0
  }

  predicate IsComplete(m: map<string, Entry>, video: string) {
    video in m && m[video].complete
  }

  /** The upload that `index`'s ledger record follows: the only one in procesar-video,
      the subtitled second pass in crear-reels. */
  function FinalUpload(p: Pipeline, video: string, index: int): Event {
    match p
    case ProcesarVideo => Upload(FragmentFile(index, video), false)
    case CrearReels(cues) => Upload(ReelFile(index, video), cues(video, index) > 0)
  }

  /** The events of one turn of the loop, for fragment `index`. */
  function FragmentBlock(p: Pipeline, video: string, index: int): seq<Event> {
    match p
    case ProcesarVideo => [FinalUpload(p, video, index), Save(video, index, false)]
    case CrearReels(_) =>
      [Upload(ReelFile(index, video), false), FinalUpload(p, video, index), Save(video, index, false)]
  }

  /** The loop's events when it starts after fragment `last`: fragment `k` runs while
      its start `(k - 1) * 90 s` is below the duration. */
  function FragmentEvents(p: Pipeline, video: string, last: int, duration: int): seq<Event>
    decreases duration - last * FRAGMENT_MS
  {
    if last * FRAGMENT_MS >= duration then []
    else FragmentBlock(p, video, last + 1) + FragmentEvents(p, video, last + 1, duration)
  }

  /** How many turns the loop takes after `last`. */
  function Iterations(last: int, duration: int): nat
    decreases duration - last * FRAGMENT_MS
  {
    if last * FRAGMENT_MS >= duration then 0 else 1 + Iterations(last + 1, duration)
  }

  /** The loop takes one turn per cut of `[last * 90 s, duration)` into 90-second
      pieces, the cuts `cut_video` would make from that point on. */
  lemma {:induction false} IterationsAreCuts(last: int, duration: int)
    ensures Iterations(last, duration) == |SpansFrom(duration, FRAGMENT_MS, last * FRAGMENT_MS)|
    decreases duration - last * FRAGMENT_MS
  {
    if last * FRAGMENT_MS < duration {
      assert (last + 1) * FRAGMENT_MS == last * FRAGMENT_MS + FRAGMENT_MS;
      IterationsAreCuts(last + 1, duration);
    }
  }

  /** Everything a run does for one video: nothing when the ledger marks it complete;
      otherwise its fragments and then the `complete` record for index
      `fragment_index - 1`. */
  function VideoEvents(p: Pipeline, video: string, m: map<string, Entry>, duration: int): seq<Event> {
    if IsComplete(m, video) then []
    else
      var last := LastFragment(m, video);
      FragmentEvents(p, video, last, duration) + [Save(video, last + Iterations(last, duration), true)]
  }

  /** The events of a run over `videos` (their keys; the ledger is keyed by
      basename) with the ledger as loaded at the start. */
  function RunEvents(p: Pipeline, videos: seq<string>, m: map<string, Entry>, duration: string -> nat): seq<Event>
    decreases |videos|
  {
    if videos == [] then []
    else
      var v := videos[|videos| - 1];
      RunEvents(p, videos[..|videos| - 1], m, duration) + VideoEvents(p, Basename(v), m, duration(v))
  }

  lemma RunEventsNext(p: Pipeline, videos: seq<string>, m: map<string, Entry>, duration: string -> nat, i: nat)
    requires i < |videos|
    ensures RunEvents(p, videos[..i + 1], m, duration)
            == RunEvents(p, videos[..i], m, duration) + VideoEvents(p, Basename(videos[i]), m, duration(videos[i]))
  {
    assert videos[..i + 1][..i] == videos[..i];
  }

  /** Unfolding the loop once: fragment `index` is next while its start is inside the
      video. */
  lemma FragmentEventsStep(p: Pipeline, video: string, index: int, duration: int)
    requires (index - 1) * FRAGMENT_MS < duration
    ensures FragmentEvents(p, video, index - 1, duration)
            == FragmentBlock(p, video, index) + FragmentEvents(p, video, index, duration)
    ensures Iterations(index - 1, duration) == 1 + Iterations(index, duration)
  {
  }

  /** The loop's invariant after fragment `index - 1`: `events` are the first turns of
      the loop started after `last`, and the turns still to come end where it ends. */
  predicate Resumed(p: Pipeline, video: string, last: int, index: int, duration: int, events: seq<Event>) {
    && FragmentEvents(p, video, last, duration) == events + FragmentEvents(p, video, index - 1, duration)
    && last + Iterations(last, duration) == (index - 1) + Iterations(index - 1, duration)
  }

  /** One turn of the loop keeps the invariant. */
  lemma LoopStep(p: Pipeline, video: string, last: int, index: int, duration: int, events: seq<Event>)
    requires (index - 1) * FRAGMENT_MS < duration && Resumed(p, video, last, index, duration, events)
    ensures Resumed(p, video, last, index + 1, duration, events + FragmentBlock(p, video, index))
  {
    FragmentEventsStep(p, video, index, duration);
    assert events + (FragmentBlock(p, video, index) + FragmentEvents(p, video, index, duration))
        == (events + FragmentBlock(p, video, index)) + FragmentEvents(p, video, index, duration);
  }

  /** When the loop stops, it has written every fragment and `index - 1` is the index
      the `complete` record carries. */
  lemma LoopDone(p: Pipeline, video: string, last: int, index: int, duration: int, events: seq<Event>)
    requires (index - 1) * FRAGMENT_MS >= duration && Resumed(p, video, last, index, duration, events)
    ensures events == FragmentEvents(p, video, last, duration)
    ensures index - 1 == last + Iterations(last, duration)
  {
    assert events + [] == events;
  }

  /** The ledger lines of one fragment's turn: its single `incomplete` record. */
  lemma RecordedBlock(p: Pipeline, events: seq<Event>, video: string, index: int)
    ensures Recorded(events + FragmentBlock(p, video, index))
            == Recorded(events) + [RecordLine(video, index, false)]
  {
    RecordedAppend(events, FragmentBlock(p, video, index));
    var b := FragmentBlock(p, video, index);
    match p
    case ProcesarVideo =>
      assert b == [b[0]] + [b[1]];
      RecordedSnoc([b[0]], b[1]);
      RecordedSnoc([], b[0]);
      assert [] + [b[0]] == [b[0]];
    case CrearReels(_) =>
      assert b == [b[0], b[1]] + [b[2]];
      RecordedSnoc([b[0], b[1]], b[2]);
      assert [b[0]] + [b[1]] == [b[0], b[1]];
      RecordedSnoc([b[0]], b[1]);
      RecordedSnoc([], b[0]);
      assert [] + [b[0]] == [b[0]];
  }

  /** The ledger lines the loop appends after `last`: one `incomplete` record per
      fragment. */
  function FragmentLines(video: string, last: int, duration: int): seq<string>
    decreases duration - last * FRAGMENT_MS
  {
    if last * FRAGMENT_MS >= duration then []
    else [RecordLine(video, last + 1, false)] + FragmentLines(video, last + 1, duration)
  }

  /** They are what the loop's events record. */
  lemma {:induction false} RecordedFragments(p: Pipeline, video: string, last: int, duration: int)
    ensures Recorded(FragmentEvents(p, video, last, duration)) == FragmentLines(video, last, duration)
    decreases duration - last * FRAGMENT_MS
  {
    if last * FRAGMENT_MS < duration {
      RecordedFragments(p, video, last + 1, duration);
      RecordedBlock(p, [], video, last + 1);
      RecordedAppend(FragmentBlock(p, video, last + 1), FragmentEvents(p, video, last + 1, duration));
      assert [] + FragmentBlock(p, video, last + 1) == FragmentBlock(p, video, last + 1);
    }
  }

  /** The lines of a whole video's events: its fragments' and the `complete` record. */
  lemma RecordedVideo(p: Pipeline, video: string, last: int, duration: int, index: int)
    ensures Recorded(FragmentEvents(p, video, last, duration) + [Save(video, index, true)])
            == FragmentLines(video, last, duration) + [RecordLine(video, index, true)]
  {
    RecordedSnoc(FragmentEvents(p, video, last, duration), Save(video, index, true));
    RecordedFragments(p, video, last, duration);
  }

  lemma Shift<T>(a: seq<T>, x: T, b: seq<T>)
    ensures a + ([x] + b) == (a + [x]) + b
  {
  }

  /** The ledger lines a run appends for one video. */
  function VideoLines(video: string, m: map<string, Entry>, duration: int): seq<string> {
    if IsComplete(m, video) then []
    else
      var last := LastFragment(m, video);
      FragmentLines(video, last, duration) + [RecordLine(video, last + Iterations(last, duration), true)]
  }

  /** The ledger lines a whole run appends, video after video. */
  function RunLines(videos: seq<string>, m: map<string, Entry>, duration: string -> nat): seq<string>
    decreases |videos|
  {
    if videos == [] then []
    else
      var v := videos[|videos| - 1];
      RunLines(videos[..|videos| - 1], m, duration) + VideoLines(Basename(v), m, duration(v))
  }

  lemma RunLinesNext(videos: seq<string>, m: map<string, Entry>, duration: string -> nat, i: nat)
    requires i < |videos|
    ensures RunLines(videos[..i + 1], m, duration)
            == RunLines(videos[..i], m, duration) + VideoLines(Basename(videos[i]), m, duration(videos[i]))
  {
    assert videos[..i + 1][..i] == videos[..i];
  }

  /** What a run appends to the ledger is exactly what its events record. */
  lemma {:induction false} RecordedRun(p: Pipeline, videos: seq<string>, m: map<string, Entry>, duration: string -> nat)
    ensures Recorded(RunEvents(p, videos, m, duration)) == RunLines(videos, m, duration)
    decreases |videos|
  {
    if videos != [] {
      var v := videos[|videos| - 1];
      var name := Basename(v);
      RecordedRun(p, videos[..|videos| - 1], m, duration);
      RecordedAppend(RunEvents(p, videos[..|videos| - 1], m, duration), VideoEvents(p, name, m, duration(v)));
      if !IsComplete(m, name) {
        RecordedVideo(p, name, LastFragment(m, name), duration(v),
                      LastFragment(m, name) + Iterations(LastFragment(m, name), duration(v)));
      }
    }
  }

  lemma Assoc<T>(a: seq<T>, b: seq<T>, c: seq<T>)
    ensures (a + b) + c == a + (b + c)
  {
  }

  /** One turn appends the fragment's line and keeps the remaining lines in step. */
  lemma LinesStep(video: string, last: int, index: int, duration: int, before: seq<string>, lines: seq<string>)
    requires (index - 1) * FRAGMENT_MS < duration
    requires before + FragmentLines(video, last, duration) == lines + FragmentLines(video, index - 1, duration)
    ensures before + FragmentLines(video, last, duration)
            == (lines + [RecordLine(video, index, false)]) + FragmentLines(video, index, duration)
  {
    assert FragmentLines(video, index - 1, duration)
        == [RecordLine(video, index, false)] + FragmentLines(video, index, duration);
    Shift(lines, RecordLine(video, index, false), FragmentLines(video, index, duration));
  }

  lemma LinesDone(video: string, last: int, index: int, duration: int, before: seq<string>, lines: seq<string>)
    requires (index - 1) * FRAGMENT_MS >= duration
    requires before + FragmentLines(video, last, duration) == lines + FragmentLines(video, index - 1, duration)
    ensures lines == before + FragmentLines(video, last, duration)
  {
    assert lines + [] == lines;
  }

  // ------------------------------------------------------------------ procesar-video.py

  /** The body of the `for` loop of `process_video_and_audio()` for a video that is not
      complete: the `while` loop over its fragments from `last + 1` on, then the
      `complete` record. */
  method ProcesarFragments(log: LogFile, name: string, last: int, total: nat) returns (events: seq<Event>)
    modifies log
    ensures events == FragmentEvents(ProcesarVideo, name, last, total)
                      + [Save(name, last + Iterations(last, total), true)]
    ensures log.lines == old(log.lines) + FragmentLines(name, last, total)
                         + [RecordLine(name, last + Iterations(last, total), true)]
    ensures log.present
  {
    var start := last * FRAGMENT_MS;
    var index := last + 1;
    events := [];
    ghost var before := log.lines;
    while start < total
      invariant start == (index - 1) * FRAGMENT_MS
      invariant Resumed(ProcesarVideo, name, last, index, total, events)
      invariant before + FragmentLines(name, last, total) == log.lines + FragmentLines(name, index - 1, total)
      decreases total - start
    {
      LoopStep(ProcesarVideo, name, last, index, total, events);
      LinesStep(name, last, index, total, before, log.lines);
      // the fragment is rendered and uploaded to `reels/fragment_{index}_{name}`
      SaveProcessedFragment(log, name, index, false);
      events := events + FragmentBlock(ProcesarVideo, name, index);
      start := start + FRAGMENT_MS;
      index := index + 1;
    }
    LoopDone(ProcesarVideo, name, last, index, total, events);
    LinesDone(name, last, index, total, before, log.lines);
    SaveProcessedFragment(log, name, index - 1, true);
    events := events + [Save(name, index - 1, true)];
  }

  // ------------------------------------------------------------------ crear-reels/main.py

  /** The fragment loop of crear-reels' `main()` after `last`: each turn renders and
      uploads `reel_{index}_{name}` without subtitles, has it transcribed, renders
      and uploads it again under the same key with the `cues` subtitles the
      transcription gave, and then records the fragment. */
  method ReelFragments(log: LogFile, name: string, last: int, total: nat, cues: (string, int) -> nat)
    returns (events: seq<Event>)
    modifies log
    ensures events == FragmentEvents(CrearReels(cues), name, last, total)
                      + [Save(name, last + Iterations(last, total), true)]
    ensures log.lines == old(log.lines) + FragmentLines(name, last, total)
                         + [RecordLine(name, last + Iterations(last, total), true)]
    ensures log.present
  {
    var start := last * FRAGMENT_MS;
    var index := last + 1;
    events := [];
    ghost var before := log.lines;
    while start < total
      invariant start == (index - 1) * FRAGMENT_MS
      invariant Resumed(CrearReels(cues), name, last, index, total, events)
      invariant before + FragmentLines(name, last, total) == log.lines + FragmentLines(name, index - 1, total)
      decreases total - start
    {
      LoopStep(CrearReels(cues), name, last, index, total, events);
      LinesStep(name, last, index, total, before, log.lines);
      var draft := ProcessSingleReel(name, start, index, total, 0);
      var reel := ProcessSingleReel(name, start, index, total, cues(name, index));
      ReelBlock(name, start, index, total, cues);
      SaveProcessedFragment(log, name, index, false);
      events := events + [Upload(ReelFile(index, name), draft.subtitled),
                          Upload(ReelFile(index, name), reel.subtitled), Save(name, index, false)];
      start := start + FRAGMENT_MS;
      index := index + 1;
    }
    LoopDone(CrearReels(cues), name, last, index, total, events);
    LinesDone(name, last, index, total, before, log.lines);
    SaveProcessedFragment(log, name, index - 1, true);
    events := events + [Save(name, index - 1, true)];
  }

  /** A crear-reels turn's events are the uploads of the two `process_single_reel`
      calls, to the key both calls return, and the record. */
  lemma ReelBlock(name: string, start: int, index: int, total: int, cues: (string, int) -> nat)
    ensures var draft := ProcessSingleReel(name, start, index, total, 0);
            var reel := ProcessSingleReel(name, start, index, total, cues(name, index));
            && FragmentBlock(CrearReels(cues), name, index)
               == [Upload(ReelFile(index, name), draft.subtitled), Upload(ReelFile(index, name), reel.subtitled),
                   Save(name, index, false)]
            && Key(ReelFile(index, name)) == draft.key == reel.key
  {
  }

  /** One pass of the `for` loop of `process_video_and_audio()`: skip a video the
      ledger marks complete, otherwise resume its fragments. */
  method ResumeProcesarVideo(log: LogFile, name: string, m: map<string, Entry>, total: nat)
    returns (events: seq<Event>)
    modifies log
    ensures events == VideoEvents(ProcesarVideo, name, m, total)
    ensures log.lines == old(log.lines) + VideoLines(name, m, total)
    ensures log.present == (old(log.present) || events != [])
  {
    if IsComplete(m, name) {
      events := [];
      assert log.lines + [] == log.lines;
    } else {
      events := ProcesarFragments(log, name, LastFragment(m, name), total);
    }
  }

  /** The `for` loop of `process_video_and_audio()` over the video keys, with the
      ledger `m` loaded before it. */
  method ProcesarVideos(log: LogFile, videos: seq<string>, m: map<string, Entry>, duration: string -> nat)
    returns (events: seq<Event>)
    modifies log
    ensures events == RunEvents(ProcesarVideo, videos, m, duration)
    ensures log.lines == old(log.lines) + Recorded(events)
    ensures log.present == (old(log.present) || events != [])
  {
    events := [];
    var i := 0;
    while i < |videos|
      invariant 0 <= i <= |videos|
      invariant events == RunEvents(ProcesarVideo, videos[..i], m, duration)
      invariant log.lines == old(log.lines) + RunLines(videos[..i], m, duration)
      invariant log.present == (old(log.present) || events != [])
    {
      RunEventsNext(ProcesarVideo, videos, m, duration, i);
      RunLinesNext(videos, m, duration, i);
      Assoc(old(log.lines), RunLines(videos[..i], m, duration), VideoLines(Basename(videos[i]), m, duration(videos[i])));
      var more := ResumeProcesarVideo(log, Basename(videos[i]), m, duration(videos[i]));
      events := events + more;
      i := i + 1;
    }
    assert videos[..i] == videos;
    RecordedRun(ProcesarVideo, videos, m, duration);
  }

  /** `process_video_and_audio()` in procesar-video.py. `duration(key)` is the video's
      length in milliseconds. */
  method ProcessVideoAndAudio(log: LogFile, videoObjects: seq<string>, audioObjects: seq<string>,
                              duration: string -> nat)
    returns (outcome: Outcome, events: seq<Event>)
    modifies log
    ensures outcome == NoInputs <==>
              Select(videoObjects, IsVideoKey) == [] || Select(audioObjects, IsAudioKey) == []
    ensures outcome != Finished ==> events == [] && log.lines == old(log.lines) && log.present == old(log.present)
    ensures outcome.LedgerError? <==> outcome != NoInputs && Load(old(log.present), old(log.lines)).NotAnInteger?
    ensures outcome.LedgerError? ==> Load(old(log.present), old(log.lines)) == NotAnInteger(outcome.field)
    ensures outcome == Finished ==>
              events == RunEvents(ProcesarVideo, Select(videoObjects, IsVideoKey),
                                  Load(old(log.present), old(log.lines)).fragments, duration)
              && log.lines == old(log.lines) + Recorded(events)
              && log.present == (old(log.present) || events != [])
  {
    var videos := Select(videoObjects, IsVideoKey);
    var audios := Select(audioObjects, IsAudioKey);
    if videos == [] || audios == [] {
      return NoInputs, [];
    }
    var loaded := LoadProcessedFragments(log);
    if loaded.NotAnInteger? {
      return LedgerError(loaded.field), [];
    }
    events := ProcesarVideos(log, videos, loaded.fragments, duration);
    return Finished, events;
  }

  /** One pass of the `for` loop of crear-reels' `main()`: skip a video the
      ledger marks complete, otherwise resume its fragments. */
  method ResumeReelVideo(log: LogFile, name: string, m: map<string, Entry>, total: nat, cues: (string, int) -> nat)
    returns (events: seq<Event>)
    modifies log
    ensures events == VideoEvents(CrearReels(cues), name, m, total)
    ensures log.lines == old(log.lines) + VideoLines(name, m, total)
    ensures log.present == (old(log.present) || events != [])
  {
    if IsComplete(m, name) {
      events := [];
      assert log.lines + [] == log.lines;
    } else {
      events := ReelFragments(log, name, LastFragment(m, name), total, cues);
    }
  }

  /** The `for` loop of crear-reels' `main()` over the video keys, with the
      ledger `m` loaded before it. */
  method ReelVideos(log: LogFile, videos: seq<string>, m: map<string, Entry>, duration: string -> nat,
                    cues: (string, int) -> nat)
    returns (events: seq<Event>)
    modifies log
    ensures events == RunEvents(CrearReels(cues), videos, m, duration)
    ensures log.lines == old(log.lines) + Recorded(events)
    ensures log.present == (old(log.present) || events != [])
  {
    events := [];
    var i := 0;
    while i < |videos|
      invariant 0 <= i <= |videos|
      invariant events == RunEvents(CrearReels(cues), videos[..i], m, duration)
      invariant log.lines == old(log.lines) + RunLines(videos[..i], m, duration)
      invariant log.present == (old(log.present) || events != [])
    {
      RunEventsNext(CrearReels(cues), videos, m, duration, i);
      RunLinesNext(videos, m, duration, i);
      Assoc(old(log.lines), RunLines(videos[..i], m, duration), VideoLines(Basename(videos[i]), m, duration(videos[i])));
      var more := ResumeReelVideo(log, Basename(videos[i]), m, duration(videos[i]), cues);
      events := events + more;
      i := i + 1;
    }
    assert videos[..i] == videos;
    RecordedRun(CrearReels(cues), videos, m, duration);
  }

  /** crear-reels' `main()`: the same resumable run, over four listings (videos,
      voices, background music and hooks) any of which being empty ends it early.
      `cues(video, index)` is how many subtitles the transcription of fragment
      `index` yields. */
  method CrearReelsMain(log: LogFile, videoObjects: seq<string>, audioObjects: seq<string>,
                        musicObjects: seq<string>, hookObjects: seq<string>,
                        duration: string -> nat, cues: (string, int) -> nat)
    returns (outcome: Outcome, events: seq<Event>)
    modifies log
    ensures outcome == NoInputs <==>
              || Select(videoObjects, IsVideoKey) == [] || Select(audioObjects, IsAudioKey) == []
              || Select(musicObjects, IsAudioKey) == [] || Select(hookObjects, IsVideoKey) == []
    ensures outcome != Finished ==> events == [] && log.lines == old(log.lines) && log.present == old(log.present)
    ensures outcome.LedgerError? <==> outcome != NoInputs && Load(old(log.present), old(log.lines)).NotAnInteger?
    ensures outcome.LedgerError? ==> Load(old(log.present), old(log.lines)) == NotAnInteger(outcome.field)
    ensures outcome == Finished ==>
              events == RunEvents(CrearReels(cues), Select(videoObjects, IsVideoKey),
                                  Load(old(log.present), old(log.lines)).fragments, duration)
              && log.lines == old(log.lines) + Recorded(events)
              && log.present == (old(log.present) || events != [])
  {
    var videos := Select(videoObjects, IsVideoKey);
    var audios := Select(audioObjects, IsAudioKey);
    var music := Select(musicObjects, IsAudioKey);
    var hooks := Select(hookObjects, IsVideoKey);
    if videos == [] || audios == [] || music == [] || hooks == [] {
      return NoInputs, [];
    }
    var loaded := LoadProcessedFragments(log);
    if loaded.NotAnInteger? {
      return LedgerError(loaded.field), [];
    }
    events := ReelVideos(log, videos, loaded.fragments, duration, cues);
    return Finished, events;
  }

  // ------------------------------------------------------------------ crear-reels as written

  /** crear-reels' `main()` as written: line 93 passes eight arguments (the hook list
      last) to the seven-parameter `process_single_reel`, so the first turn of any
      fragment loop raises a TypeError before anything is rendered. The events of
      such a run, and whether it stopped on that error. A video with no turn left
      still gets its `complete` record. */
  function ReelRunAsWritten(videos: seq<string>, m: map<string, Entry>, duration: string -> nat): (seq<Event>, bool)
    decreases |videos|
  {
    if videos == [] then ([], false)
    else
      var name := Basename(videos[0]);
      var last := LastFragment(m, name);
      if IsComplete(m, name) then ReelRunAsWritten(videos[1..], m, duration)
      else if last * FRAGMENT_MS < duration(videos[0]) then ([], true)
      else
        var rest := ReelRunAsWritten(videos[1..], m, duration);
        ([Save(name, last, true)] + rest.0, rest.1)
  }

  /** A video the run still has to cut. */
  predicate Pending(video: string, m: map<string, Entry>, duration: nat) {
    !IsComplete(m, Basename(video)) && LastFragment(m, Basename(video)) * FRAGMENT_MS < duration
  }

  /** As written, a crear-reels run uploads nothing and records only `complete`
      lines, and it stops on the TypeError exactly when some listed video still has a
      fragment to cut. */
  lemma {:induction false} ReelRunAsWrittenUploadsNothing(videos: seq<string>, m: map<string, Entry>, duration: string -> nat)
    ensures forall e :: e in ReelRunAsWritten(videos, m, duration).0 ==> e.Save? && e.complete
    ensures ReelRunAsWritten(videos, m, duration).1 <==> exists v :: v in videos && Pending(v, m, duration(v))
    decreases |videos|
  {
    if videos != [] {
      ReelRunAsWrittenUploadsNothing(videos[1..], m, duration);
      assert forall v :: v in videos <==> v == videos[0] || v in videos[1..];
    }
  }
}


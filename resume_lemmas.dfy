/** What the resumable fragment loops promise: one block of events per fragment,
    each fragment recorded right after its (final) upload and in index order, the
    cuts the loop covers, and the resume rule — a run interrupted after any number
    of records, then started again, does exactly what an uninterrupted run does. */
module ResumeLemmas {
  import opened Text
  import opened Ledger
  import opened Segments
  import opened Reels
  import opened Resume

  /** Events per turn: an upload and a record in procesar-video, two uploads and a
      record in crear-reels. */
  function BlockSize(p: Pipeline): nat {
    if p.ProcesarVideo? then 2 else 3
  }

  /** The loop's events are one block per turn. */
  lemma {:induction false} FragmentEventsLength(p: Pipeline, video: string, last: int, duration: int)
    ensures |FragmentEvents(p, video, last, duration)| == Iterations(last, duration) * BlockSize(p)
    decreases duration - last * FRAGMENT_MS
  {
    if last * FRAGMENT_MS < duration {
      FragmentEventsLength(p, video, last + 1, duration);
      MulSucc(Iterations(last + 1, duration), BlockSize(p));
    }
  }

  /** Turn `j` (counting from 0) writes fragment `last + 1 + j`'s block. */
  lemma {:induction false} FragmentEventsAt(p: Pipeline, video: string, last: int, duration: int, j: nat, i: nat)
    requires j < Iterations(last, duration) && i < BlockSize(p)
    ensures j * BlockSize(p) + i < |FragmentEvents(p, video, last, duration)|
    ensures FragmentEvents(p, video, last, duration)[j * BlockSize(p) + i] == FragmentBlock(p, video, last + 1 + j)[i]
    decreases j
  {
    FragmentEventsLength(p, video, last, duration);
    var b := BlockSize(p);
    assert FragmentEvents(p, video, last, duration)
        == FragmentBlock(p, video, last + 1) + FragmentEvents(p, video, last + 1, duration);
    if j > 0 {
      FragmentEventsAt(p, video, last + 1, duration, j - 1, i);
      MulSucc(j - 1, b);
      assert j * b + i == b + ((j - 1) * b + i);
    }
  }

  /** Each turn's `incomplete` record for fragment `last + 1 + j` comes right after
      that fragment's last upload: the only one in procesar-video, the subtitled
      second pass in crear-reels. */
  lemma RecordFollowsUpload(p: Pipeline, video: string, last: int, duration: int, j: nat)
    requires j < Iterations(last, duration)
    ensures var k := j * BlockSize(p) + BlockSize(p) - 1;
            var events := FragmentEvents(p, video, last, duration);
            && 0 < k < |events|
            && events[k] == Save(video, last + 1 + j, false)
            && events[k - 1] == FinalUpload(p, video, last + 1 + j)
  {
    var b := BlockSize(p);
    FragmentEventsAt(p, video, last, duration, j, b - 1);
    FragmentEventsAt(p, video, last, duration, j, b - 2);
  }

  /** The loop appends exactly one `incomplete` line per turn, for fragments
      `last + 1`, `last + 2`, … in order. */
  lemma {:induction false} FragmentLinesAt(video: string, last: int, duration: int, j: nat)
    requires j < Iterations(last, duration)
    ensures |FragmentLines(video, last, duration)| == Iterations(last, duration)
    ensures FragmentLines(video, last, duration)[j] == RecordLine(video, last + 1 + j, false)
    decreases j
  {
    FragmentLinesLength(video, last, duration);
    if j > 0 {
      FragmentLinesAt(video, last + 1, duration, j - 1);
    }
  }

  lemma {:induction false} FragmentLinesLength(video: string, last: int, duration: int)
    ensures |FragmentLines(video, last, duration)| == Iterations(last, duration)
    decreases duration - last * FRAGMENT_MS
  {
    if last * FRAGMENT_MS < duration {
      FragmentLinesLength(video, last + 1, duration);
    }
  }

  /** Turn `j` starts at `(last + j) * 90 s`, inside the video, and the reel it renders
      covers exactly the `j`-th cut of `[last * 90 s, duration)` into 90-second
      pieces. */
  lemma TurnSpan(video: string, last: int, duration: int, j: nat, cues: nat)
    requires j < Iterations(last, duration)
    ensures (last + j) * FRAGMENT_MS < duration
    ensures j < |SpansFrom(duration, FRAGMENT_MS, last * FRAGMENT_MS)|
    ensures ProcessSingleReel(video, (last + j) * FRAGMENT_MS, last + 1 + j, duration, cues).video
            == SpansFrom(duration, FRAGMENT_MS, last * FRAGMENT_MS)[j]
  {
    IterationsAreCuts(last, duration);
    SpansFromAt(duration, FRAGMENT_MS, last * FRAGMENT_MS, j);
    SpansFromBounded(duration, FRAGMENT_MS, last * FRAGMENT_MS);
    assert last * FRAGMENT_MS + j * FRAGMENT_MS == (last + j) * FRAGMENT_MS;
  }

  /** The `complete` record carries index `last + turns`; with no turn left it is
      `last` itself. */
  lemma CompleteRecord(p: Pipeline, video: string, m: map<string, Entry>, duration: int)
    requires !IsComplete(m, video)
    ensures var events := VideoEvents(p, video, m, duration);
            var last := LastFragment(m, video);
            && events != []
            && events[|events| - 1] == Save(video, last + Iterations(last, duration), true)
            && (last * FRAGMENT_MS >= duration ==> events == [Save(video, last, true)])
  {
  }

  /** A video the ledger marks complete costs nothing: no event, no line. */
  lemma CompleteSkipped(p: Pipeline, video: string, m: map<string, Entry>, duration: int)
    requires IsComplete(m, video)
    ensures VideoEvents(p, video, m, duration) == [] && VideoLines(video, m, duration) == []
  {
  }

  // ------------------------------------------------------------------ interruption

  /** The first `k` turns after `last`. */
  function Turns(p: Pipeline, video: string, last: int, k: nat): seq<Event>
    decreases k
  {
    if k == 0 then [] else FragmentBlock(p, video, last + 1) + Turns(p, video, last + 1, k - 1)
  }

  /** The loop after `last` is its first `k` turns followed by the loop after
      `last + k`, for any `k` up to the number of turns. */
  lemma {:induction false} FragmentEventsSplit(p: Pipeline, video: string, last: int, duration: int, k: nat)
    requires k <= Iterations(last, duration)
    ensures FragmentEvents(p, video, last, duration) == Turns(p, video, last, k) + FragmentEvents(p, video, last + k, duration)
    ensures Iterations(last, duration) == k + Iterations(last + k, duration)
    decreases k
  {
    if k > 0 {
      FragmentEventsSplit(p, video, last + 1, duration, k - 1);
      assert last + 1 + (k - 1) == last + k;
      Assoc(FragmentBlock(p, video, last + 1), Turns(p, video, last + 1, k - 1),
            FragmentEvents(p, video, last + k, duration));
    }
  }

  /** The same split of the loop's ledger lines. */
  lemma {:induction false} FragmentLinesSplit(video: string, last: int, duration: int, k: nat)
    requires k <= Iterations(last, duration)
    ensures FragmentLines(video, last, duration) == IncompleteSaves(video, last, k) + FragmentLines(video, last + k, duration)
    ensures Iterations(last, duration) == k + Iterations(last + k, duration)
    decreases k
  {
    if k > 0 {
      FragmentLinesSplit(video, last + 1, duration, k - 1);
      assert last + 1 + (k - 1) == last + k;
      IncompleteSavesCons(video, last, k);
      Assoc([RecordLine(video, last + 1, false)], IncompleteSaves(video, last + 1, k - 1),
            FragmentLines(video, last + k, duration));
    }
  }

  /** The loop's lines are the `incomplete` saves of every turn. */
  lemma FragmentLinesAreSaves(video: string, last: int, duration: int)
    ensures FragmentLines(video, last, duration) == IncompleteSaves(video, last, Iterations(last, duration))
  {
    var n := Iterations(last, duration);
    FragmentLinesSplit(video, last, duration, n);
    assert Iterations(last + n, duration) == 0;
    assert FragmentLines(video, last + n, duration) == [];
  }

  /** Resuming at `last + k` finishes what starting at `last` would: its first `k`
      turns, then the rest, then the same `complete` record. */
  lemma ResumeAt(p: Pipeline, video: string, last: int, duration: int, k: nat)
    requires k <= Iterations(last, duration)
    ensures Turns(p, video, last, k)
            + (FragmentEvents(p, video, last + k, duration) + [Save(video, last + k + Iterations(last + k, duration), true)])
            == FragmentEvents(p, video, last, duration) + [Save(video, last + Iterations(last, duration), true)]
  {
    FragmentEventsSplit(p, video, last, duration, k);
    Assoc(Turns(p, video, last, k), FragmentEvents(p, video, last + k, duration),
          [Save(video, last + Iterations(last, duration), true)]);
  }

  lemma ResumeLinesAt(video: string, last: int, duration: int, k: nat)
    requires k <= Iterations(last, duration)
    ensures IncompleteSaves(video, last, k)
            + (FragmentLines(video, last + k, duration) + [RecordLine(video, last + k + Iterations(last + k, duration), true)])
            == FragmentLines(video, last, duration) + [RecordLine(video, last + Iterations(last, duration), true)]
  {
    FragmentLinesSplit(video, last, duration, k);
    Assoc(IncompleteSaves(video, last, k), FragmentLines(video, last + k, duration),
          [RecordLine(video, last + Iterations(last, duration), true)]);
  }

  /** The same at the level of the loaded map: with the video's entry moved on to
      `last + k`, not complete, the run's events for it are the rest of the
      uninterrupted run's. */
  lemma ResumeEntry(p: Pipeline, video: string, m: map<string, Entry>, duration: int, last: int, k: nat)
    requires !IsComplete(m, video) && LastFragment(m, video) == last
    requires 0 < k <= Iterations(last, duration)
    ensures Turns(p, video, last, k) + VideoEvents(p, video, m[video := Entry(last + k, false)], duration)
            == VideoEvents(p, video, m, duration)
  {
    var m' := m[video := Entry(last + k, false)];
    ResumeAt(p, video, last, duration, k);
    VideoEventsOpenUpdated(p, video, m, duration, last + k);
    VideoEventsOpen(p, video, m, duration, last);
    Replace(Turns(p, video, last, k),
            VideoEvents(p, video, m', duration),
            FragmentEvents(p, video, last + k, duration) + [Save(video, last + k + Iterations(last + k, duration), true)],
            VideoEvents(p, video, m, duration),
            FragmentEvents(p, video, last, duration) + [Save(video, last + Iterations(last, duration), true)]);
  }

  /** ... and so are its ledger lines. */
  lemma ResumeEntryLines(video: string, m: map<string, Entry>, duration: int, last: int, k: nat)
    requires !IsComplete(m, video) && LastFragment(m, video) == last
    requires 0 < k <= Iterations(last, duration)
    ensures IncompleteSaves(video, last, k) + VideoLines(video, m[video := Entry(last + k, false)], duration)
            == VideoLines(video, m, duration)
  {
    var m' := m[video := Entry(last + k, false)];
    ResumeLinesAt(video, last, duration, k);
    VideoLinesOpenUpdated(video, m, duration, last + k);
    VideoLinesOpen(video, m, duration, last);
    Replace(IncompleteSaves(video, last, k),
            VideoLines(video, m', duration),
            FragmentLines(video, last + k, duration) + [RecordLine(video, last + k + Iterations(last + k, duration), true)],
            VideoLines(video, m, duration),
            FragmentLines(video, last, duration) + [RecordLine(video, last + Iterations(last, duration), true)]);
  }

  lemma VideoEventsOpenUpdated(p: Pipeline, video: string, m: map<string, Entry>, duration: int, next: int)
    ensures VideoEvents(p, video, m[video := Entry(next, false)], duration)
            == FragmentEvents(p, video, next, duration) + [Save(video, next + Iterations(next, duration), true)]
  {
    var m' := m[video := Entry(next, false)];
    assert LastFragment(m', video) == next && !IsComplete(m', video);
    VideoEventsOpen(p, video, m', duration, next);
  }

  lemma VideoLinesOpenUpdated(video: string, m: map<string, Entry>, duration: int, next: int)
    ensures VideoLines(video, m[video := Entry(next, false)], duration)
            == FragmentLines(video, next, duration) + [RecordLine(video, next + Iterations(next, duration), true)]
  {
    var m' := m[video := Entry(next, false)];
    assert LastFragment(m', video) == next && !IsComplete(m', video);
    VideoLinesOpen(video, m', duration, next);
  }

  lemma VideoEventsOpen(p: Pipeline, video: string, m: map<string, Entry>, duration: int, last: int)
    requires !IsComplete(m, video) && LastFragment(m, video) == last
    ensures VideoEvents(p, video, m, duration)
            == FragmentEvents(p, video, last, duration) + [Save(video, last + Iterations(last, duration), true)]
  {
  }

  lemma VideoLinesOpen(video: string, m: map<string, Entry>, duration: int, last: int)
    requires !IsComplete(m, video) && LastFragment(m, video) == last
    ensures VideoLines(video, m, duration)
            == FragmentLines(video, last, duration) + [RecordLine(video, last + Iterations(last, duration), true)]
  {
  }

  lemma Replace<T>(x: seq<T>, a: seq<T>, a': seq<T>, b: seq<T>, b': seq<T>)
    requires a == a' && b == b' && x + a' == b'
    ensures x + a == b
  {
  }

  /** The resume rule. A run that stops (crashes) after recording `k > 0` fragments
      of a video leaves a ledger from which the next run resumes at fragment
      `last + k + 1`: the interrupted run's turns followed by the next run's events
      for that video are exactly the events, and the lines, of one uninterrupted
      run — no fragment skipped, none done twice, the same `complete` index. */
  lemma CrashThenResume(p: Pipeline, lines: seq<string>, video: string, duration: int, k: nat)
    requires RoundTrips(video) && Fold(lines).Loaded?
    requires !IsComplete(Fold(lines).fragments, video)
    requires 0 < k <= Iterations(LastFragment(Fold(lines).fragments, video), duration)
    ensures var m := Fold(lines).fragments;
            var last := LastFragment(m, video);
            var after := Fold(lines + IncompleteSaves(video, last, k));
            && after == Loaded(m[video := Entry(last + k, false)])
            && Turns(p, video, last, k) + VideoEvents(p, video, after.fragments, duration) == VideoEvents(p, video, m, duration)
            && IncompleteSaves(video, last, k) + VideoLines(video, after.fragments, duration) == VideoLines(video, m, duration)
  {
    var last := LastFragment(Fold(lines).fragments, video);
    IncompleteSavesThenLoad(lines, video, last, k);
    ResumeEntry(p, video, Fold(lines).fragments, duration, last, k);
    ResumeEntryLines(video, Fold(lines).fragments, duration, last, k);
  }

  /** After an uninterrupted run of a video, the ledger loads with that video complete
      at index `last + turns`. */
  lemma FullRunLoad(lines: seq<string>, video: string, m: map<string, Entry>, duration: int)
    requires RoundTrips(video) && Fold(lines) == Loaded(m) && !IsComplete(m, video)
    ensures var last := LastFragment(m, video);
            Fold(lines + VideoLines(video, m, duration))
            == Loaded(m[video := Entry(last + Iterations(last, duration), true)])
  {
    var last := LastFragment(m, video);
    var n := Iterations(last, duration);
    var saves := IncompleteSaves(video, last, n);
    var rec := RecordLine(video, last + n, true);
    FragmentLinesAreSaves(video, last, duration);
    VideoLinesOpen(video, m, duration, last);
    AppendAfter(lines, VideoLines(video, m, duration), saves, rec);
    if n == 0 {
      assert lines + saves == lines;
    } else {
      IncompleteSavesThenLoad(lines, video, last, n);
      MapUpdateTwice(m, video, Entry(last + n, false), Entry(last + n, true));
    }
    SaveThenLoad(lines + saves, video, last + n, true);
    assert Fold(lines + VideoLines(video, m, duration)) == Fold((lines + saves) + [rec]);
  }

  /** ... and the next run does nothing for it: no event, no line. */
  lemma FullRunThenSkip(p: Pipeline, lines: seq<string>, video: string, duration: int)
    requires RoundTrips(video) && Fold(lines).Loaded?
    requires !IsComplete(Fold(lines).fragments, video)
    ensures var m := Fold(lines).fragments;
            var last := LastFragment(m, video);
            var m' := m[video := Entry(last + Iterations(last, duration), true)];
            && Fold(lines + VideoLines(video, m, duration)) == Loaded(m')
            && VideoEvents(p, video, m', duration) == []
            && VideoLines(video, m', duration) == []
  {
    var m := Fold(lines).fragments;
    var last := LastFragment(m, video);
    var m' := m[video := Entry(last + Iterations(last, duration), true)];
    FullRunLoad(lines, video, m, duration);
    assert IsComplete(m', video);
    CompleteSkipped(p, video, m', duration);
  }

  // ------------------------------------------------------------------ examples

  /** A video already recorded up to fragment 3, 400 s long: the run writes fragments
      4 (from 270 s) and 5 (from 360 s) and closes at 5. */
  lemma ResumeExample()
    ensures VideoEvents(ProcesarVideo, "a.mp4", map["a.mp4" := Entry(3, false)], 400000)
            == [Upload(FragmentFile(4, "a.mp4"), false), Save("a.mp4", 4, false),
                Upload(FragmentFile(5, "a.mp4"), false), Save("a.mp4", 5, false),
                Save("a.mp4", 5, true)]
  {
    var m := map["a.mp4" := Entry(3, false)];
    assert Iterations(5, 400000) == 0;
    assert Iterations(3, 400000) == 2;
    assert FragmentEvents(ProcesarVideo, "a.mp4", 5, 400000) == [];
    assert FragmentEvents(ProcesarVideo, "a.mp4", 4, 400000)
        == [Upload(FragmentFile(5, "a.mp4"), false), Save("a.mp4", 5, false)];
  }

  /** As written, crear-reels stops at the first turn of a fresh 100-second video with
      nothing uploaded and nothing recorded. */
  lemma ReelRunAsWrittenExample(duration: string -> nat)
    requires duration("video-to-mix/a.mp4") == 100000
    ensures ReelRunAsWritten(["video-to-mix/a.mp4"], map[], duration) == ([], true)
  {
    BasenameExample();
    assert LastFragment(map[], "a.mp4") == 0 && !IsComplete(map[], "a.mp4");
  }

  /** The corrected run uploads both passes of reels 1 and 2, records each after its
      subtitled pass, and closes at 2. */
  lemma ReelRunExample(cues: (string, int) -> nat, duration: string -> nat)
    requires duration("video-to-mix/a.mp4") == 100000
    ensures RunEvents(CrearReels(cues), ["video-to-mix/a.mp4"], map[], duration)
            == [Upload(ReelFile(1, "a.mp4"), false), Upload(ReelFile(1, "a.mp4"), cues("a.mp4", 1) > 0),
                Save("a.mp4", 1, false),
                Upload(ReelFile(2, "a.mp4"), false), Upload(ReelFile(2, "a.mp4"), cues("a.mp4", 2) > 0),
                Save("a.mp4", 2, false),
                Save("a.mp4", 2, true)]
  {
    var p := CrearReels(cues);
    var videos := ["video-to-mix/a.mp4"];
    BasenameExample();
    assert videos[..0] == [];
    assert RunEvents(p, videos, map[], duration) == [] + VideoEvents(p, "a.mp4", map[], 100000);
    assert Iterations(0, 100000) == 2 by {
      assert Iterations(2, 100000) == 0;
      assert Iterations(1, 100000) == 1;
    }
    VideoEventsOpen(p, "a.mp4", map[], 100000, 0);
    var b1 := FragmentBlock(p, "a.mp4", 1);
    var b2 := FragmentBlock(p, "a.mp4", 2);
    assert FragmentEvents(p, "a.mp4", 0, 100000) == b1 + b2 by {
      assert FragmentEvents(p, "a.mp4", 2, 100000) == [];
      assert FragmentEvents(p, "a.mp4", 1, 100000) == b2;
    }
    assert b1 == [Upload(ReelFile(1, "a.mp4"), false), Upload(ReelFile(1, "a.mp4"), cues("a.mp4", 1) > 0),
                  Save("a.mp4", 1, false)];
    assert b2 == [Upload(ReelFile(2, "a.mp4"), false), Upload(ReelFile(2, "a.mp4"), cues("a.mp4", 2) > 0),
                  Save("a.mp4", 2, false)];
    TwoBlocks(Upload(ReelFile(1, "a.mp4"), false), Upload(ReelFile(1, "a.mp4"), cues("a.mp4", 1) > 0),
              Save("a.mp4", 1, false),
              Upload(ReelFile(2, "a.mp4"), false), Upload(ReelFile(2, "a.mp4"), cues("a.mp4", 2) > 0),
              Save("a.mp4", 2, false),
              Save("a.mp4", 2, true));
  }

  lemma TwoBlocks<T>(a1: T, a2: T, a3: T, b1: T, b2: T, b3: T, c: T)
    ensures [] + (([a1, a2, a3] + [b1, b2, b3]) + [c]) == [a1, a2, a3, b1, b2, b3, c]
  {
  }

  lemma BasenameExample()
    ensures Basename("video-to-mix/a.mp4") == "a.mp4"
  {
    BasenameOfJoin("video-to-mix", "a.mp4");
    assert "video-to-mix" + ("/" + "a.mp4") == "video-to-mix/a.mp4";
  }
}

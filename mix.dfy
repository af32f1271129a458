/** mix-video.py: every `.mp4` in the bucket folder that the processed-videos log
    does not name yet is cut into consecutive clips of random length (between 30 and
    100 seconds), recombined, uploaded as `combined_video_{name}` and then logged.
    Times are integer milliseconds; each `random.uniform` draw is an input. */
module Mix {
  import opened Text
  import opened Files
  import opened Segments
  import Resume

  /** The defaults `min_duration=30` and `max_duration=100`, the only values the
      script passes, in milliseconds. */
  const MIN_DURATION: nat := 30000
  const MAX_DURATION: nat := 100000

  /** `'video-to-mix'`, both where videos are listed and where results go. */
  const VIDEO_FOLDER := "video-to-mix"
  const OUTPUT_FOLDER := "video-to-mix"

  /** The `k`-th call of `random.uniform(min_duration, max_duration)` returns
      `draw(k)`, which lies between the bounds. */
  ghost predicate Uniform(draw: nat -> nat) {
    forall k :: MIN_DURATION <= draw(k) <= MAX_DURATION
  }

  // ------------------------------------------------------------------ the random partition

  /** The clips the loop cuts from `start` on, using draws `k`, `k + 1`, .... */
  function ClipsFrom(duration: nat, start: nat, k: nat, draw: nat -> nat): seq<Span>
    requires Uniform(draw)
    decreases duration - start
  {
    if start >= duration then []
    else
      var end := Min(start + draw(k), duration);
      [Span(start, end)] + ClipsFrom(duration, end, k + 1, draw)
  }

  /** The subclips of a `duration`-long video. */
  function RandomClips(duration: nat, draw: nat -> nat): seq<Span>
    requires Uniform(draw)
  {
    ClipsFrom(duration, 0, 0, draw)
  }

  /** From `start` on, the clips start at `start`, follow each other without gaps,
      end at the duration, are never longer than the maximum and, except the last,
      never shorter than the minimum. */
  lemma {:induction false} ClipsFromShape(duration: nat, start: nat, k: nat, draw: nat -> nat)
    requires Uniform(draw)
    ensures var s := ClipsFrom(duration, start, k, draw);
            && (s == [] <==> start >= duration)
            && (s != [] ==> s[0].start == start && s[|s| - 1].end == duration)
            && (forall j :: 0 <= j < |s| ==> s[j].start < s[j].end <= s[j].start + MAX_DURATION)
            && (forall j :: 0 <= j < |s| - 1 ==> s[j].end - s[j].start >= MIN_DURATION)
            && (forall j :: 0 <= j < |s| - 1 ==> s[j].end == s[j + 1].start)
    decreases duration - start
  {
    if start < duration {
      var end := Min(start + draw(k), duration);
      var rest := ClipsFrom(duration, end, k + 1, draw);
      ClipsFromShape(duration, end, k + 1, draw);
      var s := ClipsFrom(duration, start, k, draw);
      assert s == [Span(start, end)] + rest;
      assert forall j :: 1 <= j < |s| ==> s[j] == rest[j - 1];
      if rest != [] {
        assert s[1].start == end;
      }
    }
  }

  /** The whole video is cut from 0 to its end; an empty video gives no clips. */
  lemma RandomClipsCover(duration: nat, draw: nat -> nat)
    requires Uniform(draw)
    ensures duration == 0 <==> RandomClips(duration, draw) == []
    ensures duration > 0 ==> RandomClips(duration, draw)[0].start == 0
    ensures duration > 0 ==> RandomClips(duration, draw)[|RandomClips(duration, draw)| - 1].end == duration
    ensures forall j :: 0 <= j < |RandomClips(duration, draw)| ==>
              RandomClips(duration, draw)[j].start < RandomClips(duration, draw)[j].end
                                                   <= RandomClips(duration, draw)[j].start + MAX_DURATION
    ensures forall j :: 0 <= j < |RandomClips(duration, draw)| - 1 ==>
              RandomClips(duration, draw)[j].end - RandomClips(duration, draw)[j].start >= MIN_DURATION
              && RandomClips(duration, draw)[j].end == RandomClips(duration, draw)[j + 1].start
  {
    ClipsFromShape(duration, 0, 0, draw);
  }

  lemma ClipStep(duration: nat, start: nat, k: nat, draw: nat -> nat, done: seq<Span>)
    requires Uniform(draw) && start < duration
    requires done + ClipsFrom(duration, start, k, draw) == RandomClips(duration, draw)
    ensures (done + [Span(start, Min(start + draw(k), duration))])
              + ClipsFrom(duration, Min(start + draw(k), duration), k + 1, draw)
            == RandomClips(duration, draw)
  {
    var end := Min(start + draw(k), duration);
    var span := Span(start, end);
    assert ClipsFrom(duration, start, k, draw) == [span] + ClipsFrom(duration, end, k + 1, draw);
    assert done + ([span] + ClipsFrom(duration, end, k + 1, draw))
        == (done + [span]) + ClipsFrom(duration, end, k + 1, draw);
  }

  /** `f"combined_video_{os.path.basename(video_path)}"`. */
  function CombinedName(videoPath: string): string {
    "combined_video_" + Basename(videoPath)
  }

  /** `create_random_subclips_and_combine(video_path, output_folder)` for a video of
      `duration` ms: the subclips it concatenates and the path it writes. */
  method CreateRandomSubclipsAndCombine(videoPath: string, outputFolder: string, duration: nat, draw: nat -> nat)
    returns (subclips: seq<Span>, finalPath: string)
    requires Uniform(draw)
    ensures subclips == RandomClips(duration, draw)
    ensures finalPath == outputFolder + ("/" + CombinedName(videoPath))
  {
    var start := 0;
    var clipIndex := 1;
    subclips := [];
    while start < duration
      invariant clipIndex >= 1
      invariant subclips + ClipsFrom(duration, start, clipIndex - 1, draw) == RandomClips(duration, draw)
      decreases duration - start
    {
      var end := Min(start + draw(clipIndex - 1), duration);
      ClipStep(duration, start, clipIndex - 1, draw, subclips);
      subclips := subclips + [Span(start, end)];
      start := end;
      clipIndex := clipIndex + 1;
    }
    assert ClipsFrom(duration, start, clipIndex - 1, draw) == [];
    assert subclips + [] == subclips;
    finalPath := outputFolder + ("/" + CombinedName(videoPath));
  }

  // ------------------------------------------------------------------ the processed-videos log

  /** `load_processed_videos()`: nothing when the log does not exist, otherwise the
      set of its stripped lines. */
  function LoadProcessedVideos(log: LogFile): (names: set<string>)
    reads log
    ensures !log.present ==> names == {}
    ensures log.present ==> forall l :: l in log.lines ==> Strip(l) in names
    ensures log.present ==> forall n :: n in names ==> exists l :: l in log.lines && Strip(l) == n
  {
    LoadedOf(log.present, log.lines)
  }

  function LoadedOf(present: bool, lines: seq<string>): set<string> {
    if !present then {} else set l | l in lines :: Strip(l)
  }

  /** `log_processed_video(video_filename)`: appends one line. */
  method LogProcessedVideo(log: LogFile, name: string)
    modifies log
    ensures log.present && log.lines == old(log.lines) + [name]
  {
    log.Append(name);
  }

  /** Loading after logging a name adds the stripped name to what was loaded before
      (a missing log has no lines), so a name without surrounding whitespace is found
      by the next load. */
  lemma LogThenLoad(present: bool, lines: seq<string>, name: string)
    requires present || lines == []
    ensures LoadedOf(true, lines + [name]) == LoadedOf(present, lines) + {Strip(name)}
    ensures name == [] || (!IsSpace(name[0]) && !IsSpace(name[|name| - 1])) ==> name in LoadedOf(true, lines + [name])
  {
    if name == [] || (!IsSpace(name[0]) && !IsSpace(name[|name| - 1])) {
      StripIdentity(name);
    }
    assert name in lines + [name];
    assert forall l :: l in lines + [name] <==> l in lines || l == name;
  }

  // ------------------------------------------------------------------ process_all_videos

  /** What a run does, in order. */
  datatype Event = Uploaded(key: string) | Logged(name: string)

  /** The key `process_video_from_s3` uploads the result of `video_filename` to:
      `f"{OUTPUT_FOLDER}/{os.path.basename(final_video_path)}"` with the result
      written under `/tmp`. */
  function OutputKey(filename: string): string {
    OUTPUT_FOLDER + "/" + Basename(TmpPath(CombinedName(TmpPath(filename))))
  }

  /** A file written under `/tmp` keeps its name as its basename. */
  lemma BasenameOfTmp(name: string)
    requires '/' !in name
    ensures Basename(TmpPath(name)) == name
  {
    var p := TmpPath(name);
    assert p[0] == '/';
    BasenameAtFirstSlash(p, 0);
    assert p[1..] == "tmp" + ("/" + name);
    BasenameOfJoin("tmp", name);
  }

  /** For a file name without `/` the key is `video-to-mix/combined_video_{name}`. */
  lemma OutputKeyIs(filename: string)
    requires '/' !in filename
    ensures OutputKey(filename) == OUTPUT_FOLDER + "/" + ("combined_video_" + filename)
  {
    BasenameOfTmp(filename);
    var name := "combined_video_" + filename;
    assert CombinedName(TmpPath(filename)) == name;
    assert '/' !in name;
    BasenameOfTmp(name);
  }

  /** The events for one listed video key, given the names loaded at the start. */
  function Step(key: string, done: set<string>): seq<Event> {
    var filename := Basename(key);
    if filename in done then [] else [Uploaded(OutputKey(filename)), Logged(filename)]
  }

  /** The events for the videos `keys`, in order. */
  function Run(keys: seq<string>, done: set<string>): seq<Event>
    decreases |keys|
  {
    if keys == [] then [] else Run(keys[..|keys| - 1], done) + Step(keys[|keys| - 1], done)
  }

  /** The lines a run appends to the log. */
  function LoggedNames(events: seq<Event>): seq<string>
    decreases |events|
  {
    if events == [] then []
    else LoggedNames(events[..|events| - 1]) + (if events[|events| - 1].Logged? then [events[|events| - 1].name] else [])
  }

  lemma RunNext(keys: seq<string>, done: set<string>, i: nat)
    requires i < |keys|
    ensures Run(keys[..i + 1], done) == Run(keys[..i], done) + Step(keys[i], done)
  {
    assert keys[..i + 1][..i] == keys[..i];
  }

  lemma LoggedNamesStep(events: seq<Event>, key: string, done: set<string>)
    ensures LoggedNames(events + Step(key, done))
            == LoggedNames(events) + (if Basename(key) in done then [] else [Basename(key)])
  {
    var filename := Basename(key);
    if filename !in done {
      var u := events + [Uploaded(OutputKey(filename))];
      assert events + Step(key, done) == u + [Logged(filename)];
      assert u[..|u| - 1] == events;
      assert (u + [Logged(filename)])[..|u|] == u;
    } else {
      assert events + [] == events;
    }
  }

  /** `process_all_videos()` over the listed keys: loads the log once, keeps the
      `.mp4` keys, and uploads and then logs every video whose file name was not
      loaded. */
  method ProcessAllVideos(log: LogFile, listed: seq<string>) returns (events: seq<Event>)
    modifies log
    ensures events == Run(Resume.Select(listed, Resume.IsVideoKey), old(LoadProcessedVideos(log)))
    ensures log.lines == old(log.lines) + LoggedNames(events)
    ensures log.present == (old(log.present) || LoggedNames(events) != [])
  {
    var processed := LoadProcessedVideos(log);
    var videoFiles := Resume.Select(listed, Resume.IsVideoKey);
    events := [];
    var i := 0;
    while i < |videoFiles|
      invariant 0 <= i <= |videoFiles|
      invariant events == Run(videoFiles[..i], processed)
      invariant log.lines == old(log.lines) + LoggedNames(events)
      invariant log.present == (old(log.present) || LoggedNames(events) != [])
    {
      var filename := Basename(videoFiles[i]);
      RunNext(videoFiles, processed, i);
      LoggedNamesStep(events, videoFiles[i], processed);
      if filename !in processed {
        events := events + [Uploaded(OutputKey(filename))];
        LogProcessedVideo(log, filename);
        events := events + [Logged(filename)];
      }
      i := i + 1;
    }
    assert videoFiles[..i] == videoFiles;
  }

  /** Only `.mp4` keys whose file name was not loaded are processed, each exactly
      once per listing entry, and every log line follows the upload of that video's
      result. */
  lemma {:induction false} RunMeaning(keys: seq<string>, done: set<string>)
    ensures forall p :: 0 <= p < |Run(keys, done)| && Run(keys, done)[p].Logged? ==>
              p > 0 && Run(keys, done)[p - 1] == Uploaded(OutputKey(Run(keys, done)[p].name))
              && Run(keys, done)[p].name !in done
    ensures forall p :: 0 <= p < |Run(keys, done)| && Run(keys, done)[p].Uploaded? ==>
              p + 1 < |Run(keys, done)| && Run(keys, done)[p + 1].Logged?
    ensures forall k :: k in keys && Basename(k) !in done ==> Logged(Basename(k)) in Run(keys, done)
    ensures forall e :: e in Run(keys, done) && e.Logged? ==> exists k :: k in keys && Basename(k) == e.name
    decreases |keys|
  {
    if keys != [] {
      var init, key := keys[..|keys| - 1], keys[|keys| - 1];
      RunMeaning(init, done);
      var r, st := Run(init, done), Step(key, done);
      assert Run(keys, done) == r + st;
      assert forall p :: 0 <= p < |r| ==> (r + st)[p] == r[p];
      assert forall k :: k in keys ==> k in init || k == key;
      forall e | e in Run(keys, done) && e.Logged?
        ensures exists k :: k in keys && Basename(k) == e.name
      {
        if e in r {
          var k :| k in init && Basename(k) == e.name;
          assert k in keys;
        } else {
          assert key in keys;
        }
      }
    }
  }

  /** The names are loaded once: a file name listed twice in the same run, under two
      different keys, is processed twice. */
  lemma SameNameTwice()
    ensures |Run(["a/x.mp4", "b/x.mp4"], {})| == 4
  {
    var keys := ["a/x.mp4", "b/x.mp4"];
    assert keys[..1] == ["a/x.mp4"];
    assert ["a/x.mp4"][..0] == [];
  }

  /** The result is uploaded as an `.mp4` into the listed folder under a name the log
      does not hold, so the next run lists it and processes it as a new video. */
  lemma OutputIsListedNext(filename: string, logged: seq<string>)
    requires '/' !in filename && Resume.IsVideoKey(filename)
    ensures Resume.IsVideoKey(OutputKey(filename))
    ensures Basename(OutputKey(filename)) == "combined_video_" + filename
    ensures StartsWith(OutputKey(filename), VIDEO_FOLDER + "/")
  {
    OutputKeyIs(filename);
    var name := "combined_video_" + filename;
    assert '/' !in name;
    BasenameOfJoin(OUTPUT_FOLDER, name);
    var key := OUTPUT_FOLDER + "/" + name;
    assert key == OUTPUT_FOLDER + ("/" + name);
    assert key[|key| - 4..] == filename[|filename| - 4..];
  }
}

# splich media pipeline: a Dafny model of its bookkeeping

splich is a set of Python scripts. They cut long videos into reels and fragments, add voice and music
tracks, burn karaoke-style captions into the frames, and turn speech transcripts
into SubRip (`.srt`) files. The media work itself is done by moviepy, OpenCV and
pydub; the files live in S3 and Google Cloud Storage. This project models the
logic around those calls:

- **Fragment ledger** (`ledger.dfy`, `files.dfy`). `processed_fragments.log` is an
  append-only text file of `video,index,status` lines. The loader folds them into
  a map in which the last well-formed line for a video wins, and a non-integer index
  raises. The log file is a class (`Files.LogFile`) whose lines the save operations
  append to.
- **Resumable fragment loops** (`resume.dfy`, `resume_lemmas.dfy`, `fragments.dfy`).
  These are `process_video_and_audio` in procesar-video.py and `main` in
  crear-reels/main.py. A run resumes each video at `start = last * 90 s`,
  `index = last + 1`. It uploads fragment after fragment, appends an `incomplete`
  record after each upload and a `complete` record at the end. Each run is a
  method over the log object that returns the trace of uploads and records.
- **Ledger seeding** (`reelseed.dfy`). `initialize_log_from_reels` rebuilds the log
  from the `fragment_<i>_<name>` keys in the bucket.
- **Caption overlay** (`captions.dfy`). This covers `split_text`, `draw_background`,
  `calculate_text_positions`, `draw_remaining_text` and `add_subtitles` in
  crear-reels/subtitle_utils.py. The same code appears inline in
  process-video-with-subtitles.py. Text metrics (`cv2.getTextSize`) are the
  function parameters `width` and `height`.
  `fragment_captions.dfy` times those captions within the 90 s fragments of
  process-video-with-subtitles.py.
- **Transcript to SRT** (`srt.dfy`). This covers `json_to_srt` and `format_timestamp`.
  The same code appears in create-srt.py, crear-reels/transcription_utils.py and
  process-video-with-subtitles.py.
- **Key selection** (`selection.dfy`). The `[obj['Key'] for obj in objects if ...]`
  filters keep the listing's order and repeats.
- **Span arithmetic and naming** (`segments.dfy`, `fragments.dfy`, `transcribe.dfy`,
  `mix.dfy`), made of:
  - fixed-length cuts (`cortar_video`);
  - shuffled cuts (`cortar_y_mezclar_video`);
  - intro/outro wrapping (`agregar_inicio_final`);
  - fragment spans (`process_single_reel`, `process_video`);
  - the audio repeat-to-fit rule;
  - the one-minute chunks of `transcribe_audio`;
  - the random partition and processed-videos log of mix-video.py;
  - the S3 keys and URLs these build.
- **Shared helpers** (`text.dfy`). These model the Python string operations used:
  `strip`, `split(',')`, `split()`, `join`, `int()`, zero padding and
  `os.path.basename`.

How time, randomness and outside services are represented:

- Times are integer milliseconds, except in `cortar_video`, which works in whole
  seconds through `int(video.duration)`.
- Randomness is an input: `pick` drives the shuffle; `draw` gives the
  `random.uniform` durations.
- Outside services are function parameters. `duration(key)` is a video's length.
  `cues(video, index)` is how many subtitles a fragment's transcription yields.
  `recognize(uri)` gives the speech service's results.

## Model

| member | source | states |
|---|---|---|
| Ledger.LoadProcessedFragments | procesar-video.py:34-51 | The loop over the log's lines returns the fold of those lines. With no log file it returns the empty map. |
| Ledger.MalformedLineSkipped | procesar-video.py:40-43 | A line with fewer than three comma fields after `strip()` leaves the loaded map unchanged. |
| Ledger.BadIndexLineFails | procesar-video.py:44-45 | A line whose second field is not an integer makes the load fail, as `int()` raises. |
| Ledger.PrefixFailureSticks | procesar-video.py:45 | Once a line has raised, later lines change nothing: the load ends with that error. |
| Ledger.ClassifyWellFormed | procesar-video.py:44-46 | A line with at least three fields and an integer second field records `parts[0]` with index `int(parts[1])`. It is complete exactly when the stripped third field equals `complete`. |
| Ledger.LoadIsLastRecord | procesar-video.py:47-50 | A video is in the loaded map exactly when some well-formed line names it. Its entry is that of the last such line. |
| Ledger.RecordLineFields | procesar-video.py:56 | A saved line is unchanged by `strip()` and splits into exactly the name, the index digits and the status. |
| Ledger.RecordLineReadsBack | procesar-video.py:53-56 | A saved line classifies back to the record it was written from, for a name without commas or leading blanks. |
| Ledger.SaveProcessedFragment | procesar-video.py:53-56 | Appends exactly one line `video,index,complete|incomplete`. The earlier lines are kept and the file exists afterwards. |
| Ledger.SaveThenLoad | procesar-video.py:53-56 | Loading after a save gives the earlier map with that video set to the saved index and flag. |
| Ledger.LaterLineWins | procesar-video.py:47-50 | Of two well-formed lines for one video, the second decides its entry. |
| Ledger.LaterSaveWins | procesar-video.py:47-50 | Of two saves for one video, the second decides what loads. |
| Ledger.IncompleteSavesThenLoad | procesar-video.py:129 | After `k > 0` consecutive `incomplete` saves from `last + 1` on, the video loads as `last + k`, not complete. |
| Ledger.DuplicateEntriesLastWins | crear-reels/main.py:30-36 | Two lines for one video load as the later one. |
| Reels.IndexedNameSplit | procesar-video.py:121 | Splitting `fragment_<i>_<video>` on `_` gives the tag, the index digits and the pieces of the video name. |
| Reels.IndexedNameParses | initialize-reel-log.py:18-20 | The seeding parse inverts the fragment naming: field 1 reads back as the index, and fields 2 to the end re-joined with `_` give the video name, even when it holds `_`. |
| Reels.IndexedNameInjective | procesar-video.py:121 | Different (index, video) pairs get different fragment names. |
| Reels.RepeatAudioFits | procesar-video.py:21-32 | Division by zero happens exactly when the audio is empty and the video is not. Otherwise the result is exactly the video's length, trimmed or looped. The loop count gives more audio than the video. One fewer copy would not exceed the video: it equals it when the audio length divides the video's, so the source then takes one copy more than needed. |
| Reels.ReelSpans | crear-reels/video_processing.py:11-18 | Corrected (see Findings): The fragment lies in `[start, duration]` and is at most 90 s long. The voice span equals it. The music starts at 0 and lasts the fragment's length capped at 90 s. Subtitles are applied exactly when some are given. |
| Reels.ReelKeyIdentifiesFragment | crear-reels/video_processing.py:30-39 | The key `reels/reel_<index>_<video>` depends only on the index and the video. The two calls per fragment write to the same key, and different fragments to different keys. |
| Reels.ReelKeyInjective | crear-reels/video_processing.py:35 | Different file names give different keys under `reels/`. |
| Reels.SubtitledReelFailsAsWritten | crear-reels/video_processing.py:27-28 | As written, every call given subtitles fails on the `add_subtitles` arity. Every other call agrees with `ProcessSingleReel`, which subtitles exactly when cues are given. |
| Reels.ProcessVideo | process-video-with-subtitles.py:187-203 | The loop produces one fragment per span of `range(0, int(duration), 90)`, in order. |
| Reels.SubtitledFragmentsShape | process-video-with-subtitles.py:187-198 | Fragment `k` starts at `k * 90 s`, below `int(duration)`, and ends at `min(start + 90 s, duration)`. The voice span equals the video span and the music spans `[0, min(90 s, length)]`. It is named `fragment_<k>_<video>` with the 0-based index. |
| Reels.SubtitledFragmentCount | process-video-with-subtitles.py:187 | Under a second there is no fragment. Otherwise there are `ceil(int(duration) / 90)` of them. |
| Reels.SubtitledTailDropped | process-video-with-subtitles.py:187-189 | When `int(duration)` is a multiple of 90 and the duration has a fraction of a second, the last fragment ends before the video does. |
| Resume.Select | procesar-video.py:62-63 | The kept keys are exactly the listed keys with the wanted extension. |
| Selection.SelectAppend | procesar-video.py:62-63 | The selection keeps the listing's order: selecting from a concatenation is concatenating the selections. |
| Selection.SelectCounts | procesar-video.py:62-63 | Repeats are kept: a wanted key occurs as often as it is listed, any other key not at all. |
| Resume.SelectEmpty | procesar-video.py:65-67 | A listing yields nothing exactly when none of its keys has the extension. |
| Resume.IterationsAreCuts | procesar-video.py:114-115 | The loop turns once for each 90 s span from `last * 90 s` to the end of the video. |
| Resume.FragmentEventsStep | procesar-video.py:114-132 | A turn taken while `start < duration` emits its fragment's block, then continues at the next index. |
| Resume.LoopStep | procesar-video.py:114-132 | One turn keeps the loop invariant that relates the events so far to the whole loop. |
| Resume.LoopDone | procesar-video.py:114 | When `start >= duration` the events are the whole loop's, and `index - 1` is `last` plus the number of turns. |
| Resume.RecordedRun | procesar-video.py:129-135 | The ledger lines of a run are exactly the records among its events, in order. |
| Resume.ProcesarFragments | procesar-video.py:111-135 | The fragment loop from `last`: it emits the uploads and `incomplete` records, then the `complete` record with index `last` plus turns. The log gains exactly those lines. |
| Resume.ResumeProcesarVideo | procesar-video.py:77-135 | One video: a video the ledger marks complete adds nothing. Any other resumes from its last fragment, or from 0 if it has no entry. |
| Resume.ProcesarVideos | procesar-video.py:72-135 | The loop over the videos, with the ledger loaded once before it. It appends exactly the records of its events. |
| Resume.ProcessVideoAndAudio | procesar-video.py:58-139 | An empty video or audio listing ends the run before the ledger is touched. A failing ledger load ends it with that field. Otherwise the events are the resumed run and the log gains exactly their records. |
| Resume.ReelBlock | crear-reels/main.py:93-110 | Corrected (see Findings): Each crear-reels turn uploads the draft and then the subtitled reel, both to the same key. Then it records the fragment. |
| Resume.ReelFragments | crear-reels/main.py:88-115 | Corrected (see Findings): The crear-reels fragment loop from `last`, with the same records as procesar-video. |
| Resume.ResumeReelVideo | crear-reels/main.py:65-115 | Corrected (see Findings): One video of crear-reels: complete videos are skipped, the others resumed. |
| Resume.ReelVideos | crear-reels/main.py:61-115 | Corrected (see Findings): The crear-reels loop over the videos, against the ledger loaded once. |
| Resume.CrearReelsMain | crear-reels/main.py:44-118 | Corrected (see Findings): Any empty listing among videos, voices, music and hooks returns before the ledger is read. A failing load ends the run. Otherwise the events are the resumed run and the log gains exactly their records. |
| Resume.ReelRunAsWrittenUploadsNothing | crear-reels/main.py:91-93 | As written, a crear-reels run uploads nothing and records only `complete` lines. It stops on the TypeError exactly when some listed video still has a fragment to cut. |
| ResumeLemmas.FragmentEventsLength | procesar-video.py:114-132 | The loop emits one block of events per turn. |
| ResumeLemmas.RecordFollowsUpload | procesar-video.py:125-129 | In every turn the `incomplete` record for fragment `index` immediately follows that fragment's final upload. |
| ResumeLemmas.FragmentLinesAt | procesar-video.py:129-132 | The `j`-th line the loop appends records fragment `last + 1 + j` as incomplete. |
| ResumeLemmas.TurnSpan | procesar-video.py:111-116 | Turn `j` starts at `(last + j) * 90 s`, below the duration. Its fragment is the `j`-th 90 s span from `last * 90 s` on. |
| ResumeLemmas.CompleteRecord | procesar-video.py:135 | A resumed video always ends with one `complete` record at index `last` plus turns. When no turn runs, that record is `last` alone. |
| ResumeLemmas.CompleteSkipped | procesar-video.py:77-79 | A video marked complete gets no event and no line. |
| ResumeLemmas.FragmentLinesAreSaves | procesar-video.py:129 | The loop's lines are consecutive `incomplete` saves from `last + 1` on. |
| ResumeLemmas.ResumeEntry | procesar-video.py:101-112 | The events of the first `k` turns, followed by the video's events resumed from `last + k`, are its events from `last`. |
| ResumeLemmas.CrashThenResume | procesar-video.py:101-135 | Suppose a run stops after recording `k > 0` fragments. The next run loads `last + k` and resumes there. The interrupted turns plus the resumed run give exactly the events and lines of one uninterrupted run: nothing skipped, nothing done twice. |
| ResumeLemmas.FullRunLoad | procesar-video.py:135 | After an uninterrupted run of a video, the ledger loads that video as complete at index `last` plus turns. |
| ResumeLemmas.FullRunThenSkip | procesar-video.py:77-79 | A video run to the end is skipped by the next run: no event and no line. |
| ResumeLemmas.ResumeExample | procesar-video.py:111-135 | A 400 s video recorded up to fragment 3 yields uploads and records for fragments 4 and 5, then `complete` at 5. |
| ResumeLemmas.ReelRunAsWrittenExample | crear-reels/main.py:91-93 | As written, a fresh 100 s video stops on the first call, with nothing uploaded or recorded. |
| ResumeLemmas.ReelRunExample | crear-reels/main.py:88-115 | Corrected, on a fresh 100 s video: two turns, a draft and a subtitled upload each, then `complete` at 2. |
| ReelSeed.Max | initialize-reel-log.py:24 | The larger of the two indices. |
| ReelSeed.FragmentKeyParses | initialize-reel-log.py:16-20 | A key `reels/fragment_<i>_<video>` as procesar-video.py uploads it is read back as fragment `i` of `video`. |
| ReelSeed.OtherKeyIgnored | initialize-reel-log.py:16-17 | A key whose basename does not start with `fragment_` changes nothing. |
| ReelSeed.CollectKindsFails | initialize-reel-log.py:19 | Seeding fails exactly when some key has a non-integer index field, and then on the first such key. |
| ReelSeed.SeedIsMax | initialize-reel-log.py:14-26 | Without a failure, each video seen maps to the largest index among its keys, and only videos seen are mapped. |
| ReelSeed.SeedOrderIndependent | initialize-reel-log.py:23-26 | Two listings with the same keys, in any order and with any repeats, give the same outcome and the same indices. |
| ReelSeed.SeedLines | initialize-reel-log.py:30-31 | One line per distinct video. |
| ReelSeed.InitializeLogFromReels | initialize-reel-log.py:9-33 | Corrected (see Findings): On success the log is overwritten with one three-field line `video,last,incomplete` per distinct video, in first-seen order. A failing key leaves the log untouched. |
| ReelSeed.SeedLineAsWrittenSkipped | initialize-reel-log.py:31 | As written, each seeded line `video,last` has two fields, so the ledger loader skips it as malformed. |
| ReelSeed.SeededLogLoadsEmptyAsWritten | initialize-reel-log.py:29-31 | As written, a seeded log loads as the empty map. |
| ReelSeed.SeededLogLoads | initialize-reel-log.py:29-31 | Corrected to `video,last,incomplete`, a seeded log loads exactly the seeded indices, none complete. |
| ReelSeed.InitializeThenLoad | initialize-reel-log.py:9-31 | Corrected (see Findings): Seeding then loading gives every seen video its largest index, not complete. |
| Captions.SplitText | crear-reels/subtitle_utils.py:8-19 | The loop's two lines are the words the greedy packing places on each line, joined by spaces. |
| Captions.PackWords | crear-reels/subtitle_utils.py:12-17 | Each line holds, in input order, exactly the words placed on it. |
| Captions.KeptCount | crear-reels/subtitle_utils.py:12-17 | No word is duplicated: the two lines together hold a sub-multiset of the input words, and no more words than it. |
| Captions.PackFits | crear-reels/subtitle_utils.py:13-19 | A non-empty line, once stripped, is no wider than the maximum. |
| Captions.SplitTextLines | crear-reels/subtitle_utils.py:8-19 | `split_text`'s lines fit the width, split back into the packed words, and together hold a sub-multiset of the text's words. |
| Captions.LaterWordReturnsToFirstLine | crear-reels/subtitle_utils.py:12-17 | A short word after one that went to line 2 is still put on line 1. |
| Captions.TextPositions | crear-reels/subtitle_utils.py:44-51 | Each line is centred with floor division. The second baseline sits exactly 50 px below the first. |
| Captions.HighlightIndexBounds | crear-reels/subtitle_utils.py:25-26 | The highlighted index is below the word count whenever there is a word. |
| Captions.AdvanceOver | crear-reels/subtitle_utils.py:31-32 | The x loop adds `width(w) + 20` for each earlier word of the line. |
| Captions.BoxAt | crear-reels/subtitle_utils.py:39-41 | The box strictly encloses the word's extent, `x` to `x + width` across and `y - height` to the baseline `y` down. It leaves a margin of 5 px on either side and 10 px above and below. |
| Captions.DrawBackground | crear-reels/subtitle_utils.py:21-42 | The method computes the box of its specification function, including the IndexError when both lines are empty. |
| Captions.HighlightOnDrawnWord | crear-reels/subtitle_utils.py:28-37 | The box fails exactly when both lines are empty. Otherwise it sits at the place where `draw_remaining_text` draws the highlighted word. |
| Captions.PlacementsSpacing | crear-reels/subtitle_utils.py:75-84 | Words of a line are drawn from the line's anchor, each `width + 20` px right of the previous, on one baseline. |
| Captions.DrawLine | crear-reels/subtitle_utils.py:77-79 | The loop over one line's words places them as the specification says. |
| Captions.DrawRemainingText | crear-reels/subtitle_utils.py:75-84 | Both lines' words are placed, line 1 then line 2. |
| Captions.FirstActiveIsFirst | crear-reels/subtitle_utils.py:62-63 | The chosen cue is active at `t` and no earlier cue is. There is none exactly when no cue is active. |
| Captions.SafeWidth | crear-reels/subtitle_utils.py:58-59 | The safe width is `W - 2 * (W // 10)`: at most `W`, at least four fifths of it. |
| Captions.AddSubtitles | crear-reels/subtitle_utils.py:53-73 | The cue loop with `break` returns the overlay of the first active cue, or the frame undecorated. |
| Captions.CueOverlayMeaning | crear-reels/subtitle_utils.py:62-71 | A drawn cue's lines fit the safe width and hold words of its text, 50 px apart, with the box under one of the drawn words. Drawing fails only when no word fits. |
| Captions.OverlayMeaning | process-video-with-subtitles.py:134-173 | A frame is undecorated exactly when no cue is active. Otherwise it shows the first active cue's overlay. |
| FragmentCaptions.AsWrittenReplaysFirstFragment | process-video-with-subtitles.py:190-196 | As written, a cue over the video's first second shows again at the start of fragment 1, where the whole video has no active cue. |
| FragmentCaptions.FragmentOverlayFollowsVideo | process-video-with-subtitles.py:187-196 | Corrected (see Findings): a fragment's frame at local time `t` shows what the whole video shows at `k * 90 s + t`. That is nothing when no cue is active then, otherwise the first cue active then. |
| FragmentCaptions.FragmentsContinue | process-video-with-subtitles.py:187-196 | Corrected (see Findings): fragment `k + 1` at `t` agrees with fragment `k` at `t + 90 s`, so the captions run on across fragments. |
| Srt.TimestampFields | process-video-with-subtitles.py:84-89 | Minutes and seconds are below 60 and milliseconds below 1000. `h*3600 + m*60 + s` is the whole seconds, and together with the milliseconds the fields give back the time. |
| Srt.TimestampWidths | process-video-with-subtitles.py:90 | Minutes and seconds take exactly two digits and milliseconds three. Hours take at least two. |
| Srt.ParseJoinedFields | crear-reels/transcription_utils.py:72 | Four digit fields joined as `H:M:S,x` read back as their clock value. |
| Srt.TimestampRoundTrip | create-srt.py:58-64 | Reading a formatted timestamp back as `HH:MM:SS,mmm` gives the original milliseconds. |
| Srt.WritesAreBlock | process-video-with-subtitles.py:79-81 | The three writes for an item append exactly one cue block. |
| Srt.BlockLayout | process-video-with-subtitles.py:79-81 | A cue block is five lines: the number, `start --> end`, the text and two empty lines (single-line text). |
| Srt.Convert | process-video-with-subtitles.py:74-82 | The next number is always one more than the cues written. A failure is at an item of the input. |
| Srt.ConvertStops | process-video-with-subtitles.py:78 | Once an item has raised for lack of `end_time`, later items change nothing. |
| Srt.JsonToSrt | process-video-with-subtitles.py:69-82 | The text written is the rendering of the converted cues, and the run stops where conversion fails. |
| Srt.Timed | crear-reels/transcription_utils.py:57-58 | The kept items all have a start time, and an end time when the input has one for every timed item. |
| Srt.NumberedSnoc | create-srt.py:48-56 | Numbering one more timed item appends a cue with the next number, its times and its content. |
| Srt.ConvertMeaning | process-video-with-subtitles.py:74-82 | Conversion succeeds exactly when every timed item has an end. It then writes the timed items in order, numbered 1, 2, .... On failure at `i`, item `i` is timed without an end, every earlier one is fine, and the earlier timed items were written. |
| Transcribe.ChunksCover | appold.py:161-162 | The one-minute slices cover `[0, length)` without gaps. Each is non-empty and at most 60000 ms, only the last may be shorter, and slice `k` starts at `60000 * k`. No audio means no slice. |
| Transcribe.ChunkNameInjective | appold.py:167 | `segment_<i>.wav` names differ for different slices. |
| Transcribe.CaptionTiming | appold.py:184-186 | A subtitle ends at offset plus the result's end and lasts 500 ms per word. It starts before its slice's offset exactly when its words need more time than the result's end. |
| Transcribe.StartPrecedesOffset | appold.py:184 | One word ending 400 ms into the second minute starts at 59900 ms, in the first minute. |
| Transcribe.ChunkCaptions | appold.py:182-186 | One subtitle per result of the slice. |
| Transcribe.TranscribeAudio | appold.py:154-190 | The nested loops return the subtitles of every slice in order, with the offset growing by 60 s per slice. |
| Transcribe.TranscriptFrom | appold.py:164-188 | Every subtitle comes from some result of some slice, timed against that slice's offset. Every result of every slice gives a subtitle. |
| Transcribe.OffsetIsChunkStart | appold.py:188 | The offset used for slice `i` is where that slice starts. |
| Mix.ClipsFromShape | mix-video.py:28-42 | From any start, the clips are contiguous and each lasts at most the maximum. All but the last last at least the minimum, and they end exactly at the video's end. |
| Mix.RandomClipsCover | mix-video.py:32-41 | The partition is empty exactly for an empty video. It starts at 0 and ends at the duration, with all clips within the bounds and contiguous. |
| Mix.CreateRandomSubclipsAndCombine | mix-video.py:24-54 | The loop cuts the partition the draws determine, and the output path is `<folder>/combined_video_<basename>`. |
| Mix.LoadProcessedVideos | mix-video.py:56-61 | A missing log loads as the empty set. Otherwise the set holds exactly the stripped lines. |
| Mix.LogProcessedVideo | mix-video.py:63-65 | Appends exactly the name as one line. |
| Mix.LogThenLoad | mix-video.py:56-65 | Logging a name adds exactly its stripped form to the next loaded set. A name without surrounding blanks is found as itself. |
| Mix.OutputKeyIs | mix-video.py:75-78 | The upload key is `video-to-mix/combined_video_<name>`. |
| Mix.ProcessAllVideos | mix-video.py:88-104 | Only `.mp4` keys are handled, against the set loaded once at the start. The log gains exactly the names logged. |
| Mix.RunMeaning | mix-video.py:75-101 | Each logged name right follows its upload and was not in the loaded set. Each upload is followed by its log line. Every listed name not in the set is logged, and every logged name is a listed one. |
| Mix.SameNameTwice | mix-video.py:90-101 | Two keys with one basename are both processed in the same run, because the set is not re-read. |
| Mix.OutputIsListedNext | mix-video.py:78 | The output goes back under `video-to-mix/` as an `.mp4`, so a later run lists it as an input. |
| Segments.FixedSpansCover | modules/video_processing.py:21-22 | No span when `total <= 0`. Otherwise `ceil(total / seg)` spans, the first starting at 0 and the last ending at `total`. |
| Segments.SpansFromStarts | modules/video_processing.py:21 | Span `k` starts at `start + k * seg`. |
| Segments.SpansFromBounded | modules/video_processing.py:22 | Every span is non-empty, at most `seg` long and ends by `total`. |
| Segments.SpansFromContiguous | appold.py:59-60 | Each span but the last is exactly `seg` long and ends where the next starts. |
| Segments.CutSpans | modules/video_processing.py:21-22 | A zero step raises. A negative step cuts nothing. A positive one cuts the fixed spans. |
| Segments.UploadTmpFile | modules/video_processing.py:10-14 | A file written under `/tmp` is uploaded to `<folder>/<name>` and the URL is `s3://<bucket>/<folder>/<name>`. |
| Segments.SegmentUrlsAre | modules/video_processing.py:24-32 | One URL per cut, in cut order, for `segments/segmento_<start>_<end>.mp4`. |
| Segments.CutVideo | modules/video_processing.py:16-34 | `cortar_video` returns those URLs, or raises for a zero step. |
| Segments.Wrap | appold.py:62-66 | The clip list is the video, preceded by the intro and followed by the outro when those are given. |
| Segments.WrapIsWrapped | modules/video_processing.py:63-67 | Any list with that shape is exactly `[intro]? ++ [video] ++ [outro]?`. |
| Segments.CutVideoWrapped | appold.py:51-74 | One wrapped cut per fixed span, in order, named `segmento_<start>_<end>.mp4`. |
| Segments.AddIntroOutro | appold.py:94-114 | One `procesado_<basename>` output per input, in input order, each the input wrapped. |
| Segments.AddIntroOutroUpload | modules/video_processing.py:55-78 | The same outputs, each uploaded under `processed/`, and the URLs in input order. |
| Segments.ShuffledPermutes | appold.py:86 | Whatever the random picks, the shuffle reorders the same elements. |
| Segments.Shuffle | modules/video_processing.py:46 | The in-place shuffle of the array leaves a permutation of its contents. |
| Segments.CutAndShuffle | modules/video_processing.py:36-53 | The mixed video is the fixed cuts in shuffled order, uploaded as `randomized/video_mezclado.mp4`. A zero step raises. |
| Segments.MixedIsPermutation | appold.py:81-87 | The mixed video uses every cut exactly once. |
| Segments.BackgroundAudioLength | modules/video_processing.py:95-96 | Music is looped to the video's length only when shorter. A longer track is kept whole. |

## Left out

- Media work is left out: decoding, encoding, resizing, pixel drawing, colour conversion, volume, `audio_loop` and `concatenate_videoclips` belong to moviepy, OpenCV and pydub. Only spans, names, positions and lengths are modelled. In particular `concatenate_videoclips([])`, reached when there are no cuts (a negative step or under a second of video in `Segments.CutAndShuffle`, a zero-length video in `Mix.CreateRandomSubclipsAndCombine`), is taken to produce an output. The model does not capture that moviepy may raise there.
- Cloud and network I/O are left out: S3 listing, downloads and uploads, Google Cloud Storage, AWS Transcribe jobs and their polling, and Google Speech. Listings are sequences of keys and uploads are events or URLs. Only the first page of an S3 listing (at most 1000 keys) is what the source sees; the model takes whatever list it is given.
- Transcription is not modelled. crear-reels' subtitles enter as the count `cues(video, index)`, Google Speech's results as `recognize(uri)`; `upload_to_gcs` reusing an existing object is covered because `recognize` depends only on the URI.
- Local file cleanup (`os.remove`) and the `/tmp` existence checks before downloads are left out.
- Floating point is left out. Times are integer milliseconds (or whole seconds where the source takes `int(duration)`), so timedelta rounding and the float truncation of milliseconds in `format_timestamp` are not modelled. The same goes for `int(frame_width * 0.1)`, which is taken as `W // 10`, and the half-second-per-word estimate, taken as 500 ms.
- Resume.CrearReelsMain: the duration is one value per video, `duration(key)`. The source re-opens the clip for every `while` test (crear-reels/main.py:91); the file does not change between tests, so the value is the same.
- Resume.ProcesarVideos: the ledger map is loaded once and is not refreshed within a run, as in the source. Two keys with the same basename therefore both resume from the same stale entry; the model keeps that behaviour and states nothing more about it.
- Ledger.SaveThenLoad: the round trip is proved for names without commas, without `\n` or `\r` and without leading blanks (`RoundTrips`); the same hypothesis carries into the lemmas built on it (`ReelSeed.SeededLogLoads`, `ResumeLemmas.CrashThenResume`, `ResumeLemmas.FullRunLoad`). Other names are split into fields, split into lines by text-mode reading, or stripped by the loader, and do not read back.
- Files.LogFile.Append: the file is a sequence of lines and one appended record is one line, whatever characters it holds. Python's text-mode reading would split a record holding `\n` or `\r` into several lines; the model relies on `RoundTrips` wherever this matters.
- Ledger.BadIndexLineFails: the load fails on any second field that `Text.ParseInt` rejects. That parser covers ASCII digits and ASCII whitespace only, so fields such as `1_0`, non-ASCII decimal digits or a number padded with a non-breaking space, which Python's `int()` accepts, make the model's load fail where the source's succeeds.
- Text.ParseInt: base-10 `int()` without underscores between digits, without non-ASCII decimal digits and without non-ASCII whitespace around the number.
- Text.IsSpace: the ASCII part of `str.isspace()`. Non-ASCII blanks (U+0085, U+00A0, U+2028 and the like) are not whitespace here, so `Text.Strip` and `Text.SplitWords` keep them where Python's `strip()` and `split()` drop them.
- Ledger.LoadProcessedFragments: a load that raises returns its `NotAnInteger` error carrying the offending field instead of a Python traceback.
- Srt.JsonToSrt: an item without `alternatives` is not modelled; each item carries its content. An item with `start_time` but no `end_time` raises `KeyError`, which is the model's failure index.
- Captions.TextPositions: text height is the abstract `height` function, like width.
- Mix.ProcessAllVideos: the events record the upload key and the log line, not the partition, which is stated per video by `CreateRandomSubclipsAndCombine`.
- Mix.LogThenLoad: a name containing a newline would be read back as two lines; names are taken as single lines.
- Mix.Uniform: `random.uniform(30, 100)` is modelled as any sequence of draws within `[30000, 100000]` ms.
- Transcribe.TranscribeAudio: the audio slicing itself (`audio[i:i + 60000]`) is the span; the audio samples are not modelled.
- Segments.Shuffle: `random.shuffle` is modelled as Fisher-Yates driven by the given picks. Only the permutation property is claimed, not the distribution.
- Flask routes, the Facebook uploaders, text-to-speech, `resize_and_upload_to_s3.py` and the clock-dependent job naming are outside the modelled core.

## Findings

| source | as written | input that shows it | evidently intended | confidence | as-written member | corrected member |
|---|---|---|---|---|---|---|
| crear-reels/main.py:93 | `process_single_reel` is called with eight arguments (the hook list last), but it takes seven, so the first turn of any fragment loop raises TypeError | one fresh 100 s video, as in `ReelRunAsWrittenExample` | call it with the seven parameters it declares, rendering the draft and then the subtitled reel | high, not executed | Resume.ReelRunAsWrittenUploadsNothing | Resume.CrearReelsMain |
| crear-reels/video_processing.py:28 | `add_subtitles(video_fragment, subtitles)` passes two arguments to the three-parameter `add_subtitles(get_frame, t, subtitles)`, so any call with subtitles raises | any fragment with at least one cue | apply the overlay per frame (`fl(lambda gf, t: add_subtitles(gf, t, subtitles))`, as process-video-with-subtitles.py:196 does) | high, not executed | Reels.SubtitledReelFailsAsWritten | Reels.ReelSpans |
| initialize-reel-log.py:31 | writes `video,last` lines with two fields, which the three-field loader skips as malformed, so the seeded log loads empty | keys `reels/fragment_3_a.mp4`: the log `a.mp4,3` loads as the empty map | write `video,last,incomplete` so that a run resumes after `last` | high, not executed | ReelSeed.SeededLogLoadsEmptyAsWritten | ReelSeed.InitializeLogFromReels, ReelSeed.SeededLogLoads |
| process-video-with-subtitles.py:196 | the overlay is applied to the fragment `video_clip.subclip(i, ...)`, whose frames are timed from the fragment's start, and `add_subtitles` compares that time unchanged with cues timed against the whole video, so every fragment replays the captions of the first 90 s | a cue over the video's first second: fragment 1 shows it at its own time 0 (the video's 90 s), where no cue is active | compare `t + i` with the cues, so each fragment shows the captions of its own part of the video | medium, not executed (rests on moviepy timing a subclip from 0) | FragmentCaptions.AsWrittenReplaysFirstFragment | FragmentCaptions.FragmentOverlayFollowsVideo |

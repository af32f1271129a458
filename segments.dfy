/** Fixed-length segmentation of a video (`cortar_video`, `cortar_y_mezclar_video`,
    `agregar_inicio_final` in modules/video_processing.py and appold.py), the S3 key
    and URL that `upload_to_s3` builds, and the background-audio length rule of
    `add_logo_and_background_audio`. Times are whole seconds here, as both files take
    `int(video.duration)`. */
module Segments {
  import opened Text

  /** A time span `[start, end)` of a clip. */
  datatype Span = Span(start: int, end: int)

  function Min(a: int, b: int): int {
    if a <= b then a else b
  }

  // ------------------------------------------------------------------ the cuts

  /** The spans `range(start, total, seg)` yields, each ending at
      `min(start + seg, total)`. */
  function SpansFrom(total: int, seg: int, start: int): seq<Span>
    requires seg > 0
    decreases total - start
  {
    if start >= total then []
    else [Span(start, Min(start + seg, total))] + SpansFrom(total, seg, start + seg)
  }

  /** The segments of a `total`-second video cut every `seg` seconds. */
  function FixedSpans(total: int, seg: int): seq<Span>
    requires seg > 0
  {
    SpansFrom(total, seg, 0)
  }

  lemma MulSucc(n: int, d: int)
    ensures (n + 1) * d == n * d + d
  {
  }

  /** A video shorter than the starting point has no cuts left. */
  lemma SpansFromEmpty(total: int, seg: int, start: int)
    requires seg > 0
    ensures start >= total <==> SpansFrom(total, seg, start) == []
  {
  }

  /** There are `ceil((total - start) / seg)` cuts: `n - 1` whole segments fall short
      of the remaining time and `n` cover it. */
  lemma {:induction false} SpansFromCount(total: int, seg: int, start: int)
    requires seg > 0 && start < total
    ensures var n := |SpansFrom(total, seg, start)|;
      (n - 1) * seg < total - start <= n * seg
    decreases total - start
  {
    var n := |SpansFrom(total, seg, start)|;
    if start + seg < total {
      SpansFromCount(total, seg, start + seg);
      MulSucc(n - 2, seg);
      MulSucc(n - 1, seg);
    } else {
      assert SpansFrom(total, seg, start + seg) == [];
      assert n == 1;
    }
  }

  /** The first cut starts at `start` and the last one ends at `total`. */
  lemma {:induction false} SpansFromEnds(total: int, seg: int, start: int)
    requires seg > 0 && start < total
    ensures var s := SpansFrom(total, seg, start);
      s[0].start == start && s[|s| - 1].end == total
    decreases total - start
  {
    if start + seg < total {
      SpansFromEnds(total, seg, start + seg);
    } else {
      assert SpansFrom(total, seg, start + seg) == [];
    }
  }

  /** Every cut is non-empty, at most `seg` long and inside the video. */
  lemma {:induction false} SpansFromBounded(total: int, seg: int, start: int)
    requires seg > 0
    ensures forall k :: 0 <= k < |SpansFrom(total, seg, start)| ==>
      SpansFrom(total, seg, start)[k].start < SpansFrom(total, seg, start)[k].end <= SpansFrom(total, seg, start)[k].start + seg
      && SpansFrom(total, seg, start)[k].end <= total
    decreases total - start
  {
    if start < total {
      var s := SpansFrom(total, seg, start);
      var rest := SpansFrom(total, seg, start + seg);
      SpansFromBounded(total, seg, start + seg);
      assert s == [Span(start, Min(start + seg, total))] + rest;
      forall k | 1 <= k < |s|
        ensures s[k].start < s[k].end <= s[k].start + seg && s[k].end <= total
      {
        assert s[k] == rest[k - 1];
      }
    }
  }

  /** The `k`-th cut starts at `start + k * seg`. */
  lemma {:induction false} SpansFromStarts(total: int, seg: int, start: int)
    requires seg > 0
    ensures forall k :: 0 <= k < |SpansFrom(total, seg, start)| ==>
      SpansFrom(total, seg, start)[k].start == start + k * seg
    decreases total - start
  {
    if start < total {
      var s := SpansFrom(total, seg, start);
      var rest := SpansFrom(total, seg, start + seg);
      SpansFromStarts(total, seg, start + seg);
      assert s == [Span(start, Min(start + seg, total))] + rest;
      forall k | 1 <= k < |s|
        ensures s[k].start == start + k * seg
      {
        assert s[k] == rest[k - 1];
        MulSucc(k - 1, seg);
      }
    }
  }

  /** The `k`-th cut is `[start + k * seg, min(start + (k + 1) * seg, total))`. */
  lemma {:induction false} SpansFromAt(total: int, seg: int, start: int, k: nat)
    requires seg > 0 && k < |SpansFrom(total, seg, start)|
    ensures SpansFrom(total, seg, start)[k] == Span(start + k * seg, Min(start + k * seg + seg, total))
    decreases k
  {
    if k > 0 {
      SpansFromAt(total, seg, start + seg, k - 1);
      MulSucc(k - 1, seg);
    }
  }

  /** Each cut but the last is exactly `seg` long and the next starts where it ends. */
  lemma {:induction false} SpansFromContiguous(total: int, seg: int, start: int)
    requires seg > 0
    ensures var s := SpansFrom(total, seg, start);
      forall k :: 0 <= k < |s| - 1 ==> s[k].end == s[k].start + seg == s[k + 1].start
    decreases total - start
  {
    if start < total {
      var s := SpansFrom(total, seg, start);
      var rest := SpansFrom(total, seg, start + seg);
      SpansFromContiguous(total, seg, start + seg);
      assert forall k :: 1 <= k < |s| ==> s[k] == rest[k - 1];
      if rest != [] {
        SpansFromEnds(total, seg, start + seg);
        assert s[1].start == start + seg;
        assert s[0].end == start + seg;
      }
    }
  }

  /** The cuts of a whole video cover `[0, total)` exactly, in order; a video shorter
      than one second has none. */
  lemma FixedSpansCover(total: int, seg: int)
    requires seg > 0
    ensures total <= 0 <==> FixedSpans(total, seg) == []
    ensures total > 0 ==> (|FixedSpans(total, seg)| - 1) * seg < total <= |FixedSpans(total, seg)| * seg
    ensures total > 0 ==> FixedSpans(total, seg)[0].start == 0
    ensures total > 0 ==> FixedSpans(total, seg)[|FixedSpans(total, seg)| - 1].end == total
  {
    SpansFromEmpty(total, seg, 0);
    if total > 0 {
      SpansFromCount(total, seg, 0);
      SpansFromEnds(total, seg, 0);
    }
  }

  /** One turn of the cutting loop: the cut at `start` is the next one of the video. */
  lemma CutStep(total: int, seg: int, start: int, done: seq<Span>)
    requires seg > 0 && start < total
    requires done + SpansFrom(total, seg, start) == FixedSpans(total, seg)
    ensures (done + [Span(start, Min(start + seg, total))]) + SpansFrom(total, seg, start + seg)
            == FixedSpans(total, seg)
  {
    var span := Span(start, Min(start + seg, total));
    assert SpansFrom(total, seg, start) == [span] + SpansFrom(total, seg, start + seg);
    assert done + ([span] + SpansFrom(total, seg, start + seg))
        == (done + [span]) + SpansFrom(total, seg, start + seg);
  }

  /** When the loop stops, the cuts made are all of them. */
  lemma CutDone(total: int, seg: int, start: int, done: seq<Span>)
    requires seg > 0 && start >= total
    requires done + SpansFrom(total, seg, start) == FixedSpans(total, seg)
    ensures done == FixedSpans(total, seg)
  {
    assert SpansFrom(total, seg, start) == [];
    assert done + [] == done;
  }

  /** The loop `for start_time in range(0, duracion_total, duracion_segmento)` with
      `end_time = min(start_time + duracion_segmento, duracion_total)`. A zero step
      makes `range` raise `ValueError` (`None`); a negative step gives an empty
      range. */
  method CutSpans(total: int, seg: int) returns (r: Option<seq<Span>>)
    ensures seg == 0 ==> r == None
    ensures seg < 0 ==> r == Some([])
    ensures seg > 0 ==> r == Some(FixedSpans(total, seg))
  {
    if seg == 0 {
      return None;
    }
    if seg < 0 {
      return Some([]);
    }
    var spans: seq<Span> := [];
    var start := 0;
    while start < total
      invariant spans + SpansFrom(total, seg, start) == FixedSpans(total, seg)
      decreases total - start
    {
      var span := Span(start, Min(start + seg, total));
      CutStep(total, seg, start, spans);
      spans := spans + [span];
      start := start + seg;
    }
    CutDone(total, seg, start, spans);
    return Some(spans);
  }

  // ------------------------------------------------------------------ naming and upload

  /** `f"segmento_{start_time}_{end_time}.mp4"`. */
  function SegmentName(s: Span): string {
    "segmento_" + IntToString(s.start) + "_" + IntToString(s.end) + ".mp4"
  }

  /** The local scratch path `f"/tmp/{name}"`. */
  function TmpPath(name: string): string {
    "/tmp/" + name
  }

  /** `upload_to_s3(file_path, s3_folder)`: the key `f"{s3_folder}/{basename}"`. */
  function UploadKey(folder: string, path: string): string {
    folder + ("/" + Basename(path))
  }

  /** The URL `upload_to_s3` returns, `f"s3://{bucket}/{key}"`. */
  function UploadUrl(bucket: string, folder: string, path: string): string {
    "s3://" + bucket + "/" + UploadKey(folder, path)
  }

  /** A file written under `/tmp` lands in the folder under its own name. */
  lemma UploadKeyOfTmp(folder: string, name: string)
    requires '/' !in name
    ensures UploadKey(folder, TmpPath(name)) == folder + ("/" + name)
  {
    var p := TmpPath(name);
    assert p[0] == '/';
    BasenameAtFirstSlash(p, 0);
    assert p[1..] == "tmp" + ("/" + name);
    BasenameOfJoin("tmp", name);
  }

  /** The digits of an integer hold no `/`. */
  lemma IntToStringNoSlash(i: int)
    ensures '/' !in IntToString(i)
  {
    IntToStringChars(i);
  }

  /** Segment names hold no `/`, so each lands under `segments/` as itself. */
  lemma SegmentNameNoSlash(s: Span)
    ensures '/' !in SegmentName(s)
  {
    IntToStringNoSlash(s.start);
    IntToStringNoSlash(s.end);
  }

  /** `upload_to_s3` on a file written under `/tmp`: the file lands in the folder under
      its own name. */
  method UploadTmpFile(bucket: string, folder: string, name: string) returns (url: string)
    requires '/' !in name
    ensures url == "s3://" + bucket + "/" + (folder + ("/" + name))
  {
    url := UploadUrl(bucket, folder, TmpPath(name));
    UploadKeyOfTmp(folder, name);
  }

  /** The URL of one cut once uploaded to `segments/`. */
  function SegmentUrl(bucket: string, s: Span): string {
    "s3://" + bucket + "/" + ("segments" + ("/" + SegmentName(s)))
  }

  /** That URL is what `upload_to_s3(f"/tmp/{name}", 'segments')` returns. */
  lemma SegmentUrlIsUpload(bucket: string, s: Span)
    ensures SegmentUrl(bucket, s) == UploadUrl(bucket, "segments", TmpPath(SegmentName(s)))
  {
    SegmentNameNoSlash(s);
    UploadKeyOfTmp("segments", SegmentName(s));
  }

  /** The URLs `cortar_video` collects, one per cut, in order. */
  function SegmentUrls(bucket: string, spans: seq<Span>): seq<string> {
    if spans == [] then []
    else [SegmentUrl(bucket, spans[0])] + SegmentUrls(bucket, spans[1..])
  }

  /** One URL per cut, in cut order. */
  lemma {:induction false} SegmentUrlsAre(bucket: string, spans: seq<Span>)
    ensures |SegmentUrls(bucket, spans)| == |spans|
    ensures forall k :: 0 <= k < |spans| ==> SegmentUrls(bucket, spans)[k] == SegmentUrl(bucket, spans[k])
  {
    if spans != [] {
      var rest := spans[1..];
      SegmentUrlsAre(bucket, rest);
      var urls := SegmentUrls(bucket, spans);
      assert urls == [SegmentUrl(bucket, spans[0])] + SegmentUrls(bucket, rest);
      forall k | 1 <= k < |spans|
        ensures urls[k] == SegmentUrl(bucket, spans[k])
      {
        assert spans[k] == rest[k - 1];
      }
    }
  }

  /** `cortar_video` in modules/video_processing.py: each cut is written to
      `/tmp/segmento_<start>_<end>.mp4` and uploaded to `segments/`, and the URLs come
      back in cut order. */
  method CutVideo(bucket: string, total: int, seg: int) returns (r: Option<seq<string>>)
    ensures seg == 0 ==> r == None
    ensures seg < 0 ==> r == Some([])
    ensures seg > 0 ==> r == Some(SegmentUrls(bucket, FixedSpans(total, seg)))
  {
    if seg == 0 {
      return None;
    }
    if seg < 0 {
      return Some([]);
    }
    var urls: seq<string> := [];
    ghost var done: seq<Span> := [];
    var start := 0;
    while start < total
      invariant done + SpansFrom(total, seg, start) == FixedSpans(total, seg)
      invariant urls == SegmentUrls(bucket, done)
      decreases total - start
    {
      var span := Span(start, Min(start + seg, total));
      CutStep(total, seg, start, done);
      var name := SegmentName(span);
      SegmentNameNoSlash(span);
      var url := UploadTmpFile(bucket, "segments", name);
      SegmentUrlsSnoc(bucket, done, span);
      urls := urls + [url];
      done := done + [span];
      start := start + seg;
    }
    CutDone(total, seg, start, done);
    return Some(urls);
  }

  lemma {:induction false} SegmentUrlsSnoc(bucket: string, spans: seq<Span>, s: Span)
    ensures SegmentUrls(bucket, spans + [s])
            == SegmentUrls(bucket, spans) + [SegmentUrl(bucket, s)]
  {
    if spans != [] {
      assert (spans + [s])[1..] == spans[1..] + [s];
      SegmentUrlsSnoc(bucket, spans[1..], s);
    }
  }

  // ------------------------------------------------------------------ intro and outro

  /** What a written video is made of, in order: whole files or cuts of the source. */
  datatype Clip = File(path: string) | Cut(span: Span)

  /** `inicio_path if inicio_path else None`: `None` and the empty path both mean no
      clip. */
  predicate Given(p: Option<string>) {
    p.Some? && p.value != ""
  }

  /** `clips = [video]`, then `clips.insert(0, inicio)` and `clips.append(final)`
      when those are given. */
  method Wrap(intro: Option<string>, main: Clip, outro: Option<string>) returns (clips: seq<Clip>)
    ensures main in clips
    ensures |clips| == 1 + (if Given(intro) then 1 else 0) + (if Given(outro) then 1 else 0)
    ensures clips[if Given(intro) then 1 else 0] == main
    ensures Given(intro) ==> clips[0] == File(intro.value)
    ensures Given(outro) ==> clips[|clips| - 1] == File(outro.value)
  {
    clips := [main];
    if Given(intro) {
      clips := [File(intro.value)] + clips;
    }
    if Given(outro) {
      clips := clips + [File(outro.value)];
    }
  }

  /** The clip list `Wrap` builds, as a value. */
  function Wrapped(intro: Option<string>, main: Clip, outro: Option<string>): seq<Clip> {
    (if Given(intro) then [File(intro.value)] else []) + [main] + (if Given(outro) then [File(outro.value)] else [])
  }

  lemma WrapIsWrapped(intro: Option<string>, main: Clip, outro: Option<string>, clips: seq<Clip>)
    requires main in clips
    requires |clips| == 1 + (if Given(intro) then 1 else 0) + (if Given(outro) then 1 else 0)
    requires clips[if Given(intro) then 1 else 0] == main
    requires Given(intro) ==> clips[0] == File(intro.value)
    requires Given(outro) ==> clips[|clips| - 1] == File(outro.value)
    ensures clips == Wrapped(intro, main, outro)
  {
    var w := Wrapped(intro, main, outro);
    assert |w| == |clips|;
    forall k | 0 <= k < |w| ensures w[k] == clips[k] {
    }
  }

  /** A file that `agregar_inicio_final` or appold's `cortar_video` writes: its clips
      and its name. */
  datatype Written = Written(clips: seq<Clip>, name: string)

  /** `f"procesado_{os.path.basename(input_video_path)}"`. */
  function ProcessedName(path: string): string {
    "procesado_" + Basename(path)
  }

  /** `agregar_inicio_final` in appold.py: one output per input path, in input order,
      each the input between the optional intro and outro. The names are returned;
      the files are what was written. */
  method AddIntroOutro(paths: seq<string>, intro: Option<string>, outro: Option<string>)
    returns (names: seq<string>, files: seq<Written>)
    ensures |names| == |files| == |paths|
    ensures forall k :: 0 <= k < |paths| ==>
              names[k] == ProcessedName(paths[k]) && files[k].name == names[k]
              && files[k].clips == Wrapped(intro, File(paths[k]), outro)
  {
    names, files := [], [];
    var k := 0;
    while k < |paths|
      invariant 0 <= k <= |paths|
      invariant |names| == |files| == k
      invariant forall j :: 0 <= j < k ==>
                  names[j] == ProcessedName(paths[j]) && files[j].name == names[j]
                  && files[j].clips == Wrapped(intro, File(paths[j]), outro)
    {
      var clips := Wrap(intro, File(paths[k]), outro);
      WrapIsWrapped(intro, File(paths[k]), outro, clips);
      var name := ProcessedName(paths[k]);
      names := names + [name];
      files := files + [Written(clips, name)];
      k := k + 1;
    }
  }

  /** `agregar_inicio_final` in modules/video_processing.py: the same outputs, each
      written to `/tmp` and uploaded to `processed/`; the URLs come back in input
      order. */
  method AddIntroOutroUpload(bucket: string, paths: seq<string>, intro: Option<string>, outro: Option<string>)
    returns (urls: seq<string>, files: seq<Written>)
    ensures |urls| == |files| == |paths|
    ensures forall k :: 0 <= k < |paths| ==>
              urls[k] == UploadUrl(bucket, "processed", TmpPath(ProcessedName(paths[k])))
              && files[k] == Written(Wrapped(intro, File(paths[k]), outro), ProcessedName(paths[k]))
  {
    urls, files := [], [];
    var k := 0;
    while k < |paths|
      invariant 0 <= k <= |paths|
      invariant |urls| == |files| == k
      invariant forall j :: 0 <= j < k ==>
                  urls[j] == UploadUrl(bucket, "processed", TmpPath(ProcessedName(paths[j])))
                  && files[j] == Written(Wrapped(intro, File(paths[j]), outro), ProcessedName(paths[j]))
    {
      var clips := Wrap(intro, File(paths[k]), outro);
      WrapIsWrapped(intro, File(paths[k]), outro, clips);
      var name := ProcessedName(paths[k]);
      urls := urls + [UploadUrl(bucket, "processed", TmpPath(name))];
      files := files + [Written(clips, name)];
      k := k + 1;
    }
  }

  /** A processed file keeps the input's own file name after `procesado_`, and lands
      in `processed/` under that name. */
  lemma ProcessedUrl(bucket: string, path: string)
    ensures '/' !in ProcessedName(path)
    ensures UploadUrl(bucket, "processed", TmpPath(ProcessedName(path)))
            == "s3://" + bucket + "/" + ("processed" + ("/" + "procesado_" + Basename(path)))
  {
    BasenameIsLastComponent(path);
    UploadKeyOfTmp("processed", ProcessedName(path));
  }

  /** `cortar_video` in appold.py: each cut, between the optional intro and outro, is
      written as `segmento_<start>_<end>.mp4`; the names come back in cut order. */
  method CutVideoWrapped(total: int, seg: int, intro: Option<string>, outro: Option<string>)
    returns (r: Option<seq<Written>>)
    ensures seg == 0 ==> r == None
    ensures seg < 0 ==> r == Some([])
    ensures seg > 0 ==> r.Some? && |r.value| == |FixedSpans(total, seg)|
    ensures seg > 0 ==> forall k :: 0 <= k < |r.value| ==>
              r.value[k] == Written(Wrapped(intro, Cut(FixedSpans(total, seg)[k]), outro),
                                    SegmentName(FixedSpans(total, seg)[k]))
  {
    if seg == 0 {
      return None;
    }
    if seg < 0 {
      return Some([]);
    }
    var out: seq<Written> := [];
    ghost var done: seq<Span> := [];
    var start := 0;
    while start < total
      invariant done + SpansFrom(total, seg, start) == FixedSpans(total, seg)
      invariant |out| == |done|
      invariant forall k :: 0 <= k < |done| ==>
                  out[k] == Written(Wrapped(intro, Cut(done[k]), outro), SegmentName(done[k]))
      decreases total - start
    {
      var span := Span(start, Min(start + seg, total));
      CutStep(total, seg, start, done);
      var clips := Wrap(intro, Cut(span), outro);
      WrapIsWrapped(intro, Cut(span), outro, clips);
      out := out + [Written(clips, SegmentName(span))];
      done := done + [span];
      start := start + seg;
    }
    CutDone(total, seg, start, done);
    return Some(out);
  }

  // ------------------------------------------------------------------ shuffle

  /** `random.shuffle` (Fisher-Yates over the list, from the back): position `i`
      swaps with `pick(i) % (i + 1)`; `pick` stands for the random source. */
  function Swap<T>(s: seq<T>, i: nat, j: nat): seq<T>
    requires i < |s| && j < |s|
  {
    s[i := s[j]][j := s[i]]
  }

  lemma SwapPermutes<T>(s: seq<T>, i: nat, j: nat)
    requires i < |s| && j < |s|
    ensures |Swap(s, i, j)| == |s| && multiset(Swap(s, i, j)) == multiset(s)
  {
  }

  /** The list after the shuffle steps for positions `i` down to `1`. */
  function ShuffledFrom<T>(s: seq<T>, pick: nat -> nat, i: nat): seq<T>
    requires i < |s|
    decreases i
  {
    if i == 0 then s
    else ShuffledFrom(Swap(s, i, pick(i) % (i + 1)), pick, i - 1)
  }

  function Shuffled<T>(s: seq<T>, pick: nat -> nat): seq<T> {
    if |s| == 0 then s else ShuffledFrom(s, pick, |s| - 1)
  }

  /** Whatever the random picks, the shuffle reorders the same elements. */
  lemma {:induction false} ShuffledFromPermutes<T>(s: seq<T>, pick: nat -> nat, i: nat)
    requires i < |s|
    ensures |ShuffledFrom(s, pick, i)| == |s|
    ensures multiset(ShuffledFrom(s, pick, i)) == multiset(s)
    decreases i
  {
    if i > 0 {
      SwapPermutes(s, i, pick(i) % (i + 1));
      ShuffledFromPermutes(Swap(s, i, pick(i) % (i + 1)), pick, i - 1);
    }
  }

  lemma ShuffledPermutes<T>(s: seq<T>, pick: nat -> nat)
    ensures |Shuffled(s, pick)| == |s|
    ensures multiset(Shuffled(s, pick)) == multiset(s)
  {
    if |s| > 0 {
      ShuffledFromPermutes(s, pick, |s| - 1);
    }
  }

  /** One turn of the shuffle loop takes the list one step along `ShuffledFrom`. */
  lemma ShuffleStep<T>(before: seq<T>, after: seq<T>, pick: nat -> nat, i: nat)
    requires 0 < i < |before|
    requires after == Swap(before, i, pick(i) % (i + 1))
    ensures ShuffledFrom(after, pick, i - 1) == ShuffledFrom(before, pick, i)
  {
  }

  /** `random.shuffle(clips)` in place. */
  method Shuffle(a: array<Span>, pick: nat -> nat)
    modifies a
    ensures a[..] == Shuffled(old(a[..]), pick)
    ensures multiset(a[..]) == multiset(old(a[..]))
  {
    ghost var original := a[..];
    if a.Length > 0 {
      var i := a.Length - 1;
      while i > 0
        invariant 0 <= i < a.Length
        invariant ShuffledFrom(a[..], pick, i) == Shuffled(original, pick)
      {
        var j := pick(i) % (i + 1);
        ghost var before := a[..];
        var t := a[i];
        a[i] := a[j];
        a[j] := t;
        ShuffleStep(before, a[..], pick, i);
        i := i - 1;
      }
    }
    ShuffledPermutes(original, pick);
  }

  /** What `cortar_y_mezclar_video` writes: the cuts in shuffled order, as one video
      uploaded as `randomized/video_mezclado.mp4`. */
  datatype Mixed = Mixed(order: seq<Span>, url: string)

  /** `cortar_y_mezclar_video` in modules/video_processing.py. */
  method CutAndShuffle(bucket: string, total: int, seg: int, pick: nat -> nat) returns (r: Option<Mixed>)
    ensures seg == 0 ==> r == None
    ensures seg != 0 ==> r.Some?
    ensures seg != 0 ==> r.value.url == "s3://" + bucket + "/" + ("randomized" + ("/" + "video_mezclado.mp4"))
    ensures seg > 0 ==> r.value.order == Shuffled(FixedSpans(total, seg), pick)
    ensures seg < 0 ==> r.value.order == []
  {
    var cuts := CutSpans(total, seg);
    if cuts.None? {
      return None;
    }
    var spans := cuts.value;
    var a := new Span[|spans|](k requires 0 <= k < |spans| => spans[k]);
    assert a[..] == spans;
    Shuffle(a, pick);
    var url := UploadTmpFile(bucket, "randomized", "video_mezclado.mp4");
    return Some(Mixed(a[..], url));
  }

  /** The mixed video uses every cut exactly once. */
  lemma MixedIsPermutation(total: int, seg: int, pick: nat -> nat)
    requires seg > 0
    ensures multiset(Shuffled(FixedSpans(total, seg), pick)) == multiset(FixedSpans(total, seg))
  {
    ShuffledPermutes(FixedSpans(total, seg), pick);
  }

  // ------------------------------------------------------------------ background audio

  /** `add_logo_and_background_audio`: the music is looped up to the video's length
      only when it is shorter; a longer track is kept whole. */
  function BackgroundAudioLength(audio: int, video: int): (len: int)
    ensures len >= video && len >= audio
    ensures len == video || len == audio
  {
    if audio < video then video else audio
  }
}

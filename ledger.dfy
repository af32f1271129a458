/** The resumable fragment ledger `processed_fragments.log`
    (`load_processed_fragments` / `save_processed_fragment`, identical in
    procesar-video.py and crear-reels/main.py). Each record is a line
    `video,index,status`; the loader folds the lines in order into a map from video
    file name to its last record, so the last well-formed line for a video wins. */
module Ledger {
  import opened Text
  import opened Files

  const COMPLETE := "complete"
  const INCOMPLETE := "incomplete"

  /** `{'last_fragment': n, 'complete': b}`. */
  datatype Entry = Entry(lastFragment: int, complete: bool)

  /** The loader's result: the map, or the `ValueError` that `int(parts[1])` raises
      on the first line whose second field is not an integer (carrying that field). */
  datatype LoadResult = Loaded(fragments: map<string, Entry>) | NotAnInteger(field: string)

  /** How the loader treats one line. */
  datatype LineKind = Malformed | BadIndex(field: string) | Record(video: string, entry: Entry)

  function Fields(line: string): seq<string> {
    Split(Strip(line), ',')
  }

  /** `parts = line.strip().split(',')`; fewer than three fields is malformed and
      skipped; otherwise `int(parts[1])` and `parts[2].strip() == 'complete'`. */
  function ClassifyLine(line: string): LineKind {
    var parts := Fields(line);
    if |parts| < 3 then Malformed
    else match ParseInt(parts[1])
      case None => BadIndex(parts[1])
      case Some(n) => Record(parts[0], Entry(n, Strip(parts[2]) == COMPLETE))
  }

  /** Each line of the log, classified. */
  function Classify(lines: seq<string>): (kinds: seq<LineKind>)
    ensures |kinds| == |lines|
  {
    seq(|lines|, i requires 0 <= i < |lines| => ClassifyLine(lines[i]))
  }

  /** The loader's state after one more classified line. */
  function Apply(before: LoadResult, kind: LineKind): LoadResult {
    match before
    case NotAnInteger(_) => before
    case Loaded(m) =>
      match kind
      case Malformed => before
      case BadIndex(f) => NotAnInteger(f)
      case Record(v, e) => Loaded(m[v := e])
  }

  /** The loader's state after the classified lines `kinds`, in order. */
  function FoldKinds(kinds: seq<LineKind>): LoadResult
    decreases |kinds|
  {
    if kinds == [] then Loaded(map[])
    else Apply(FoldKinds(kinds[..|kinds| - 1]), kinds[|kinds| - 1])
  }

  /** The loader's state after reading one more line. */
  function Step(before: LoadResult, line: string): LoadResult {
    Apply(before, ClassifyLine(line))
  }

  /** The loader's state after the lines of `lines`, read in order. */
  function Fold(lines: seq<string>): LoadResult {
    FoldKinds(Classify(lines))
  }

  lemma ClassifyAppend(a: seq<string>, b: seq<string>)
    ensures Classify(a + b) == Classify(a) + Classify(b)
  {
    assert forall i :: 0 <= i < |a + b| ==> Classify(a + b)[i] == (Classify(a) + Classify(b))[i] by {
      forall i | 0 <= i < |a + b| ensures Classify(a + b)[i] == (Classify(a) + Classify(b))[i] {
        if i < |a| {
          assert (a + b)[i] == a[i];
        } else {
          assert (a + b)[i] == b[i - |a|];
        }
      }
    }
  }

  lemma FoldKindsSnoc(kinds: seq<LineKind>, kind: LineKind)
    ensures FoldKinds(kinds + [kind]) == Apply(FoldKinds(kinds), kind)
  {
    assert (kinds + [kind])[..|kinds|] == kinds;
  }

  lemma FoldSnoc(lines: seq<string>, line: string)
    ensures Fold(lines + [line]) == Step(Fold(lines), line)
  {
    ClassifyAppend(lines, [line]);
    assert Classify([line]) == [ClassifyLine(line)];
    FoldKindsSnoc(Classify(lines), ClassifyLine(line));
  }

  /** One more line of the same log. */
  lemma FoldNext(lines: seq<string>, i: nat)
    requires i < |lines|
    ensures Fold(lines[..i + 1]) == Step(Fold(lines[..i]), lines[i])
  {
    assert lines[..i + 1] == lines[..i] + [lines[i]];
    FoldSnoc(lines[..i], lines[i]);
  }

  /** A missing log loads as the empty map. */
  function Load(present: bool, lines: seq<string>): LoadResult {
    if !present then Loaded(map[]) else Fold(lines)
  }

  /** `f"{video_filename},{fragment_index},{status}"`. */
  function RecordLine(video: string, index: int, complete: bool): string {
    video + "," + (IntToString(index) + "," + (if complete then COMPLETE else INCOMPLETE))
  }

  /** A video file name that survives a save/load round trip: no comma (it would be
      split into several fields), no leading whitespace (`strip()` would take it),
      and no `\n` or `\r` (reading the file in text mode ends a line at either, so
      the record would come back as two lines). */
  predicate RoundTrips(video: string) {
    ',' !in video && '\n' !in video && '\r' !in video && (video == [] || !IsSpace(video[0]))
  }

  // ------------------------------------------------------------ the two operations

  /** `load_processed_fragments()`: the loop over the log's lines. */
  method LoadProcessedFragments(log: LogFile) returns (r: LoadResult)
    ensures r == Load(log.present, log.lines)
  {
    if !log.present {
      return Loaded(map[]);
    }
    var lines := log.lines;
    var fragments: map<string, Entry> := map[];
    var i := 0;
    while i < |lines|
      invariant 0 <= i <= |lines|
      invariant Fold(lines[..i]) == Loaded(fragments)
    {
      var line := lines[i];
      FoldNext(lines, i);
      var kind := ClassifyLine(line);
      if kind.BadIndex? {
        PrefixFailureSticks(lines, i + 1);
        return NotAnInteger(kind.field);
      }
      if kind.Record? {
        fragments := fragments[kind.video := kind.entry];
      }
      i := i + 1;
    }
    assert lines[..i] == lines;
    r := Loaded(fragments);
  }

  /** `save_processed_fragment(video, index, complete)`: one appended line. */
  method SaveProcessedFragment(log: LogFile, video: string, index: int, complete: bool)
    modifies log
    ensures log.present
    ensures log.lines == old(log.lines) + [RecordLine(video, index, complete)]
  {
    log.Append(RecordLine(video, index, complete));
  }

  // ------------------------------------------------------------------- properties

  /** Once a line has raised, the lines after it are never read. */
  lemma {:induction false} PrefixFailureSticks(lines: seq<string>, k: nat)
    requires k <= |lines|
    requires Fold(lines[..k]).NotAnInteger?
    ensures Fold(lines) == Fold(lines[..k])
    decreases |lines| - k
  {
    if k < |lines| {
      FoldNext(lines, k);
      PrefixFailureSticks(lines, k + 1);
    } else {
      assert lines[..k] == lines;
    }
  }

  /** A line with fewer than three comma-separated fields is skipped: the loader's
      state is what it was before the line. */
  lemma MalformedLineSkipped(lines: seq<string>, line: string)
    requires |Fields(line)| < 3
    ensures Fold(lines + [line]) == Fold(lines)
  {
    FoldSnoc(lines, line);
  }

  /** A line with three or more fields whose second field is not an integer makes the
      whole load fail (unless an earlier line already did). */
  lemma BadIndexLineFails(lines: seq<string>, line: string)
    requires |Fields(line)| >= 3 && ParseInt(Fields(line)[1]).None?
    ensures Fold(lines + [line]).NotAnInteger?
  {
    FoldSnoc(lines, line);
  }

  /** The record a well-formed line holds: `complete` is true exactly when the third
      field, stripped, is the word `complete`. */
  lemma ClassifyWellFormed(line: string)
    requires |Fields(line)| >= 3 && ParseInt(Fields(line)[1]).Some?
    ensures ClassifyLine(line).Record?
    ensures ClassifyLine(line).video == Fields(line)[0]
    ensures ClassifyLine(line).entry.lastFragment == ParseInt(Fields(line)[1]).value
    ensures ClassifyLine(line).entry.complete <==> Strip(Fields(line)[2]) == "complete"
  {
  }

  /** The last well-formed record for `video` among `lines`, if any. */
  function LastRecord(lines: seq<string>, video: string): Option<Entry>
    decreases |lines|
  {
    if lines == [] then None
    else
      var line := lines[|lines| - 1];
      match ClassifyLine(line)
      case Record(v, e) =>
        if v == video then Some(e) else LastRecord(lines[..|lines| - 1], video)
      case _ => LastRecord(lines[..|lines| - 1], video)
  }

  /** Last line wins: after a successful load, a video is in the map exactly when some
      well-formed line names it, and its entry is the one on the last such line. */
  lemma {:induction false} LoadIsLastRecord(lines: seq<string>, video: string)
    requires Fold(lines).Loaded?
    ensures video in Fold(lines).fragments <==> LastRecord(lines, video).Some?
    ensures video in Fold(lines).fragments ==>
              Fold(lines).fragments[video] == LastRecord(lines, video).value
    decreases |lines|
  {
    if lines != [] {
      var init := lines[..|lines| - 1];
      assert lines == init + [lines[|lines| - 1]];
      FoldSnoc(init, lines[|lines| - 1]);
      assert Fold(init).Loaded?;
      LoadIsLastRecord(init, video);
    }
  }

  /** Three comma-free fields, the first not starting and the last not ending with
      whitespace, joined by commas: the loader's `strip().split(',')` gives the
      fields back. */
  lemma FieldsOfThree(a: string, b: string, c: string)
    requires ',' !in a && ',' !in b && ',' !in c
    requires a == [] || !IsSpace(a[0])
    requires c != [] && !IsSpace(c[|c| - 1])
    ensures Strip(a + [','] + (b + [','] + c)) == a + [','] + (b + [','] + c)
    ensures Fields(a + [','] + (b + [','] + c)) == [a, b, c]
  {
    var line := a + [','] + (b + [','] + c);
    assert line[|line| - 1] == c[|c| - 1];
    assert line[0] == if a != [] then a[0] else ',';
    StripIdentity(line);
    SplitThree(a, b, c, ',');
  }

  /** A saved line has no whitespace at either end, so `strip()` keeps it whole, and
      its three fields are the name, the index and the status word. */
  lemma RecordLineFields(video: string, index: int, complete: bool)
    requires RoundTrips(video)
    ensures Strip(RecordLine(video, index, complete)) == RecordLine(video, index, complete)
    ensures Fields(RecordLine(video, index, complete))
            == [video, IntToString(index), if complete then COMPLETE else INCOMPLETE]
  {
    var status := if complete then COMPLETE else INCOMPLETE;
    IntToStringClean(index);
    assert ',' !in status && !IsSpace(status[|status| - 1]);
    FieldsOfThree(video, IntToString(index), status);
  }

  /** The line `save_processed_fragment` writes reads back as the record it saved. */
  lemma RecordLineReadsBack(video: string, index: int, complete: bool)
    requires RoundTrips(video)
    ensures ClassifyLine(RecordLine(video, index, complete)) == Record(video, Entry(index, complete))
  {
    var status := if complete then COMPLETE else INCOMPLETE;
    var line := RecordLine(video, index, complete);
    RecordLineFields(video, index, complete);
    var parts := Fields(line);
    assert parts[1] == IntToString(index);
    ParseIntToString(index);
    assert ParseInt(parts[1]) == Some(index);
    StripIdentity(status);
    assert Strip(parts[2]) == status;
    assert ClassifyLine(line) == Record(video, Entry(index, complete));
  }

  /** A well-formed line updates the loaded map at its video and nowhere else. */
  lemma RecordLineUpdates(lines: seq<string>, line: string, video: string, e: Entry)
    requires Fold(lines).Loaded?
    requires ClassifyLine(line) == Record(video, e)
    ensures Fold(lines + [line]) == Loaded(Fold(lines).fragments[video := e])
  {
    FoldSnoc(lines, line);
  }

  /** Save-then-load: appending a record for a round-tripping name makes the next load
      return exactly that index and flag for it, and leaves every other video's entry
      as it was. */
  lemma SaveThenLoad(lines: seq<string>, video: string, index: int, complete: bool)
    requires RoundTrips(video)
    requires Fold(lines).Loaded?
    ensures Fold(lines + [RecordLine(video, index, complete)])
            == Loaded(Fold(lines).fragments[video := Entry(index, complete)])
  {
    RecordLineReadsBack(video, index, complete);
    RecordLineUpdates(lines, RecordLine(video, index, complete), video, Entry(index, complete));
  }

  /** Two well-formed lines for the same video: the later one wins. */
  lemma LaterLineWins(lines: seq<string>, a: string, b: string, video: string, ea: Entry, eb: Entry)
    requires Fold(lines).Loaded?
    requires ClassifyLine(a) == Record(video, ea) && ClassifyLine(b) == Record(video, eb)
    ensures Fold(lines + [a, b]) == Loaded(Fold(lines).fragments[video := eb])
  {
    RecordLineUpdates(lines, a, video, ea);
    RecordLineUpdates(lines + [a], b, video, eb);
    assert lines + [a, b] == (lines + [a]) + [b];
    var m := Fold(lines).fragments;
    assert m[video := ea][video := eb] == m[video := eb];
  }

  /** Two saves of the same video: the later one wins, whatever the earlier one
      said. */
  lemma LaterSaveWins(lines: seq<string>, video: string, first: int, firstComplete: bool,
                      second: int, secondComplete: bool)
    requires RoundTrips(video)
    requires Fold(lines).Loaded?
    ensures Fold(lines + [RecordLine(video, first, firstComplete), RecordLine(video, second, secondComplete)])
            == Loaded(Fold(lines).fragments[video := Entry(second, secondComplete)])
  {
    RecordLineReadsBack(video, first, firstComplete);
    RecordLineReadsBack(video, second, secondComplete);
    LaterLineWins(lines, RecordLine(video, first, firstComplete), RecordLine(video, second, secondComplete),
                  video, Entry(first, firstComplete), Entry(second, secondComplete));
  }

  /** The lines of `k` saves of `video` as not complete, for fragments `last + 1`
      to `last + k` in order. */
  function IncompleteSaves(video: string, last: int, k: nat): (lines: seq<string>)
    ensures |lines| == k
  {
    seq(k, j requires 0 <= j < k => RecordLine(video, last + 1 + j, false))
  }

  /** The records those lines hold once read back. */
  function IncompleteRecords(video: string, last: int, k: nat): (kinds: seq<LineKind>)
    ensures |kinds| == k
  {
    seq(k, j requires 0 <= j < k => Record(video, Entry(last + 1 + j, false)))
  }

  /** The first save comes first. */
  lemma IncompleteSavesCons(video: string, last: int, k: nat)
    requires k > 0
    ensures IncompleteSaves(video, last, k) == [RecordLine(video, last + 1, false)] + IncompleteSaves(video, last + 1, k - 1)
  {
    var rest := IncompleteSaves(video, last + 1, k - 1);
    forall j | 0 < j < k ensures IncompleteSaves(video, last, k)[j] == rest[j - 1] {
      assert last + 1 + j == last + 1 + 1 + (j - 1);
    }
  }

  /** The `k`-th save comes last. */
  lemma IncompleteSavesSnoc(video: string, last: int, k: nat)
    requires k > 0
    ensures IncompleteSaves(video, last, k) == IncompleteSaves(video, last, k - 1) + [RecordLine(video, last + k, false)]
  {
  }

  /** Consecutive saves of a round-tripping name read back as consecutive records. */
  lemma ClassifyIncompleteSaves(video: string, last: int, k: nat)
    requires RoundTrips(video)
    ensures Classify(IncompleteSaves(video, last, k)) == IncompleteRecords(video, last, k)
  {
    forall j | 0 <= j < k
      ensures Classify(IncompleteSaves(video, last, k))[j] == IncompleteRecords(video, last, k)[j]
    {
      RecordLineReadsBack(video, last + 1 + j, false);
    }
  }

  /** Folding `k > 0` consecutive records of one video leaves the last of them for it
      and every other video's entry as it was. */
  lemma {:induction false} IncompleteRecordsLoad(kinds: seq<LineKind>, video: string, last: int, k: nat)
    requires FoldKinds(kinds).Loaded? && k > 0
    ensures FoldKinds(kinds + IncompleteRecords(video, last, k))
            == Loaded(FoldKinds(kinds).fragments[video := Entry(last + k, false)])
    decreases k
  {
    var r := Record(video, Entry(last + k, false));
    var init := IncompleteRecords(video, last, k - 1);
    assert IncompleteRecords(video, last, k) == init + [r];
    AppendAfter(kinds, IncompleteRecords(video, last, k), init, r);
    FoldKindsSnoc(kinds + init, r);
    if k == 1 {
      assert kinds + init == kinds;
    } else {
      IncompleteRecordsLoad(kinds, video, last, k - 1);
      MapUpdateTwice(FoldKinds(kinds).fragments, video, Entry(last + (k - 1), false), Entry(last + k, false));
    }
  }

  /** Loading after `k > 0` saves of consecutive fragments gives the last of them,
      not complete, and leaves every other video's entry as it was. */
  lemma IncompleteSavesThenLoad(lines: seq<string>, video: string, last: int, k: nat)
    requires RoundTrips(video) && Fold(lines).Loaded? && k > 0
    ensures Fold(lines + IncompleteSaves(video, last, k))
            == Loaded(Fold(lines).fragments[video := Entry(last + k, false)])
  {
    ClassifyAppend(lines, IncompleteSaves(video, last, k));
    ClassifyIncompleteSaves(video, last, k);
    IncompleteRecordsLoad(Classify(lines), video, last, k);
  }

  lemma MapUpdateTwice<K, V>(m: map<K, V>, key: K, a: V, b: V)
    ensures m[key := a][key := b] == m[key := b]
  {
  }

  lemma AppendAfter<T>(a: seq<T>, t: seq<T>, t': seq<T>, x: T)
    requires t == t' + [x]
    ensures a + t == (a + t') + [x]
  {
  }

  /** Appending `v,2,incomplete` and then `v,4,incomplete` to an empty log loads as
      fragment 4, not complete. */
  lemma DuplicateEntriesLastWins(v: string)
    requires RoundTrips(v)
    ensures Fold([RecordLine(v, 2, false), RecordLine(v, 4, false)]) == Loaded(map[v := Entry(4, false)])
  {
    LaterSaveWins([], v, 2, false, 4, false);
    assert [] + [RecordLine(v, 2, false), RecordLine(v, 4, false)]
        == [RecordLine(v, 2, false), RecordLine(v, 4, false)];
  }
}

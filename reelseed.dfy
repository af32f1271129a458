/** `initialize_log_from_reels` in initialize-reel-log.py: rebuild the fragment
    ledger from the object keys listed under `reels/`. Every key whose base name
    starts with `fragment_` names a fragment `fragment_<index>_<video>`; the script
    keeps the largest index per video (in the order videos are first seen, as a
    Python dict does) and overwrites the ledger with one line per video. */
module ReelSeed {
  import opened Text
  import opened Files
  import opened Ledger
  import opened Reels

  const FRAGMENT_PREFIX := "fragment_"

  function Max(a: int, b: int): (r: int)
    ensures r >= a && r >= b && (r == a || r == b)
  {
    if a >= b then a else b
  }

  /** What one listed key contributes. */
  datatype KeyKind = Other | BadFragmentIndex(field: string) | FragmentOf(video: string, index: int)

  /** The seeding state: the videos in first-seen order with their largest index, or
      the `ValueError` of `int(parts[1])` (carrying that field). */
  datatype Seed = Seeded(order: seq<string>, last: map<string, int>) | NotAnIndex(field: string)

  lemma PrefixedSplits(name: string)
    requires StartsWith(name, FRAGMENT_PREFIX)
    ensures |Split(name, '_')| >= 2
  {
    assert name[8] == '_';
  }

  /** `os.path.basename(key)`; kept when it starts with `fragment_`; then
      `parts = name.split('_')`, `int(parts[1])` and `'_'.join(parts[2:])`. */
  function ClassifyKey(key: string): KeyKind {
    var name := Basename(key);
    if !StartsWith(name, FRAGMENT_PREFIX) then Other
    else
      PrefixedSplits(name);
      var parts := Split(name, '_');
      match ParseInt(parts[1])
      case None => BadFragmentIndex(parts[1])
      case Some(i) => FragmentOf(Join(parts[2..], '_'), i)
  }

  /** Each key, classified. */
  function ClassifyKeys(keys: seq<string>): (kinds: seq<KeyKind>)
    ensures |kinds| == |keys|
  {
    seq(|keys|, i requires 0 <= i < |keys| => ClassifyKey(keys[i]))
  }

  /** One more key: a fragment of a video already seen raises its index to the
      larger of the two; a new video is added at the end with its index. */
  function Add(before: Seed, kind: KeyKind): Seed {
    match before
    case NotAnIndex(_) => before
    case Seeded(order, last) =>
      match kind
      case Other => before
      case BadFragmentIndex(f) => NotAnIndex(f)
      case FragmentOf(v, i) =>
        if v in last then Seeded(order, last[v := Max(last[v], i)])
        else Seeded(order + [v], last[v := i])
  }

  function CollectKinds(kinds: seq<KeyKind>): Seed
    decreases |kinds|
  {
    if kinds == [] then Seeded([], map[])
    else Add(CollectKinds(kinds[..|kinds| - 1]), kinds[|kinds| - 1])
  }

  /** The state after the loop over `keys`. */
  function Collect(keys: seq<string>): Seed {
    CollectKinds(ClassifyKeys(keys))
  }

  lemma CollectNext(keys: seq<string>, i: nat)
    requires i < |keys|
    ensures Collect(keys[..i + 1]) == Add(Collect(keys[..i]), ClassifyKey(keys[i]))
  {
    var ks := ClassifyKeys(keys[..i + 1]);
    assert ks[..i] == ClassifyKeys(keys[..i]);
  }

  /** `f"{video_filename},{last_fragment}"` as written: two fields, no status. */
  function SeedLineAsWritten(video: string, last: int): string {
    video + "," + IntToString(last)
  }

  /** The line the loader can read: the video's last fragment, not complete. */
  function SeedLine(video: string, last: int): string {
    RecordLine(video, last, false)
  }

  /** The ledger lines, one per video in `order`. */
  function SeedLines(order: seq<string>, last: map<string, int>): (lines: seq<string>)
    requires forall v :: v in order ==> v in last
    ensures |lines| == |order|
    decreases |order|
  {
    if order == [] then []
    else SeedLines(order[..|order| - 1], last) + [SeedLine(order[|order| - 1], last[order[|order| - 1]])]
  }

  function SeedLinesAsWritten(order: seq<string>, last: map<string, int>): (lines: seq<string>)
    requires forall v :: v in order ==> v in last
    ensures |lines| == |order|
    decreases |order|
  {
    if order == [] then []
    else SeedLinesAsWritten(order[..|order| - 1], last) + [SeedLineAsWritten(order[|order| - 1], last[order[|order| - 1]])]
  }

  // ------------------------------------------------------------------ the script

  /** `initialize_log_from_reels()` over the listed keys, with the line format
      corrected: on a bad index it raises before the ledger is opened, so the ledger
      is untouched; otherwise the ledger is overwritten with one `SeedLine`
      (`video,last,incomplete`, three fields) per video, in first-seen order. The
      script as written emits the two-field `SeedLineAsWritten` instead, which the
      loader skips (`SeededLogLoadsEmptyAsWritten`). */
  method InitializeLogFromReels(log: LogFile, keys: seq<string>) returns (r: Seed)
    modifies log
    ensures r == Collect(keys)
    ensures r.NotAnIndex? ==> log.present == old(log.present) && log.lines == old(log.lines)
    ensures r.Seeded? ==> SeedWellFormed(r) && log.present && log.lines == SeedLines(r.order, r.last)
  {
    var order: seq<string> := [];
    var last: map<string, int> := map[];
    var i := 0;
    while i < |keys|
      invariant 0 <= i <= |keys|
      invariant Collect(keys[..i]) == Seeded(order, last)
      invariant unchanged(log)
    {
      CollectNext(keys, i);
      match ClassifyKey(keys[i]) {
        case Other =>
        case BadFragmentIndex(f) =>
          PrefixErrorSticks(keys, i + 1);
          return NotAnIndex(f);
        case FragmentOf(v, index) =>
          if v in last {
            last := last[v := Max(last[v], index)];
          } else {
            order := order + [v];
            last := last[v := index];
          }
      }
      i := i + 1;
    }
    assert keys[..i] == keys;
    r := Seeded(order, last);
    CollectWellFormed(ClassifyKeys(keys));
    log.Overwrite([]);
    var j := 0;
    while j < |order|
      invariant 0 <= j <= |order|
      invariant log.present && log.lines == SeedLines(order[..j], last)
    {
      assert order[..j + 1][..j] == order[..j];
      log.Append(SeedLine(order[j], last[order[j]]));
      j := j + 1;
    }
    assert order[..j] == order;
  }

  // ------------------------------------------------------------------ properties

  /** The state after the whole listing fails once a prefix has failed. */
  lemma {:induction false} PrefixErrorSticks(keys: seq<string>, k: nat)
    requires k <= |keys|
    requires Collect(keys[..k]).NotAnIndex?
    ensures Collect(keys) == Collect(keys[..k])
    decreases |keys| - k
  {
    if k < |keys| {
      CollectNext(keys, k);
      PrefixErrorSticks(keys, k + 1);
    } else {
      assert keys[..k] == keys;
    }
  }

  /** Each video appears once in the order, and the order lists exactly the videos
      that have an index. */
  predicate SeedWellFormed(s: Seed)
    requires s.Seeded?
  {
    && (forall v :: v in s.order ==> v in s.last)
    && (forall v :: v in s.last ==> v in s.order)
    && (forall a, b :: 0 <= a < b < |s.order| ==> s.order[a] != s.order[b])
  }

  lemma {:induction false} CollectWellFormed(kinds: seq<KeyKind>)
    requires CollectKinds(kinds).Seeded?
    ensures SeedWellFormed(CollectKinds(kinds))
    decreases |kinds|
  {
    if kinds != [] {
      var init := kinds[..|kinds| - 1];
      assert CollectKinds(init).Seeded?;
      CollectWellFormed(init);
    }
  }

  // ------------------------------------------------------------------ keys

  /** The key `procesar-video.py` uploads for fragment `index` of `video` is read
      back as that fragment of that video. */
  lemma FragmentKeyParses(index: int, video: string)
    requires '/' !in video
    ensures ClassifyKey(ReelKey(FragmentName(index, video))) == FragmentOf(video, index)
  {
    var name := FragmentName(index, video);
    IntToStringChars(index);
    assert '/' !in IntToString(index);
    assert '/' !in name;
    BasenameOfJoin("reels", name);
    assert name[..9] == FRAGMENT_PREFIX;
    IndexedNameParses("fragment", index, video);
  }

  /** A key whose base name does not start with `fragment_` changes nothing. */
  lemma OtherKeyIgnored(keys: seq<string>, key: string)
    requires !StartsWith(Basename(key), FRAGMENT_PREFIX)
    ensures Collect(keys + [key]) == Collect(keys)
  {
    CollectSnoc(keys, key);
  }

  lemma CollectSnoc(keys: seq<string>, key: string)
    ensures Collect(keys + [key]) == Add(Collect(keys), ClassifyKey(key))
  {
    CollectNext(keys + [key], |keys|);
    assert (keys + [key])[..|keys|] == keys;
    assert (keys + [key])[..|keys| + 1] == keys + [key];
  }

  // ------------------------------------------------------------------ the seed

  /** `last` holds, for every video with a fragment key, the largest index among
      its keys, and no other video. */
  predicate IsMaxIndex(kinds: seq<KeyKind>, last: map<string, int>) {
    && (forall j :: 0 <= j < |kinds| && kinds[j].FragmentOf? ==>
          kinds[j].video in last && kinds[j].index <= last[kinds[j].video])
    && (forall v :: v in last ==> exists j :: 0 <= j < |kinds| && kinds[j] == FragmentOf(v, last[v]))
  }

  /** The loop fails exactly when some key's index is not an integer, and then with
      the field of the first such key. */
  lemma {:induction false} CollectKindsFails(kinds: seq<KeyKind>)
    ensures CollectKinds(kinds).NotAnIndex? <==> exists j :: 0 <= j < |kinds| && kinds[j].BadFragmentIndex?
    ensures CollectKinds(kinds).NotAnIndex? ==>
              exists j :: 0 <= j < |kinds| && kinds[j] == BadFragmentIndex(CollectKinds(kinds).field)
                && forall t :: 0 <= t < j ==> !kinds[t].BadFragmentIndex?
    decreases |kinds|
  {
    if kinds != [] {
      var init := kinds[..|kinds| - 1];
      CollectKindsFails(init);
      assert forall t :: 0 <= t < |init| ==> init[t] == kinds[t];
      if CollectKinds(init).NotAnIndex? {
        var j :| 0 <= j < |init| && init[j] == BadFragmentIndex(CollectKinds(init).field)
                 && forall t :: 0 <= t < j ==> !init[t].BadFragmentIndex?;
        assert kinds[j] == BadFragmentIndex(CollectKinds(kinds).field);
      } else if kinds[|kinds| - 1].BadFragmentIndex? {
        assert kinds[|kinds| - 1] == BadFragmentIndex(CollectKinds(kinds).field);
      } else {
        assert forall j :: 0 <= j < |kinds| ==> !kinds[j].BadFragmentIndex? by {
          forall j | 0 <= j < |kinds| ensures !kinds[j].BadFragmentIndex? {
            if j < |init| { assert kinds[j] == init[j]; }
          }
        }
      }
    }
  }

  /** When the loop succeeds, each video's index is the largest of its keys. */
  lemma {:induction false} CollectKindsMax(kinds: seq<KeyKind>)
    requires CollectKinds(kinds).Seeded?
    ensures IsMaxIndex(kinds, CollectKinds(kinds).last)
    decreases |kinds|
  {
    if kinds != [] {
      var init := kinds[..|kinds| - 1];
      var x := kinds[|kinds| - 1];
      assert CollectKinds(init).Seeded?;
      CollectKindsMax(init);
      var last := CollectKinds(init).last;
      var last' := CollectKinds(kinds).last;
      assert forall t :: 0 <= t < |init| ==> init[t] == kinds[t];
      forall j | 0 <= j < |kinds| && kinds[j].FragmentOf?
        ensures kinds[j].video in last' && kinds[j].index <= last'[kinds[j].video]
      {
        if j < |init| {
          assert init[j] == kinds[j];
        }
      }
      forall v | v in last'
        ensures exists j :: 0 <= j < |kinds| && kinds[j] == FragmentOf(v, last'[v])
      {
        if x.FragmentOf? && x.video == v && x.index == last'[v] {
          assert kinds[|kinds| - 1] == FragmentOf(v, last'[v]);
        } else {
          assert v in last && last'[v] == last[v];
          var j :| 0 <= j < |init| && init[j] == FragmentOf(v, last[v]);
          assert kinds[j] == FragmentOf(v, last'[v]);
        }
      }
    }
  }

  /** The seed over the listed keys: it fails exactly when a fragment key's index is
      not an integer (with the first such field); otherwise each video appears once,
      in the map and in the order, with the largest index of its keys. */
  lemma SeedIsMax(keys: seq<string>)
    ensures Collect(keys).NotAnIndex? <==> exists j :: 0 <= j < |keys| && ClassifyKey(keys[j]).BadFragmentIndex?
    ensures Collect(keys).NotAnIndex? ==>
              exists j :: 0 <= j < |keys| && ClassifyKey(keys[j]) == BadFragmentIndex(Collect(keys).field)
                && forall t :: 0 <= t < j ==> !ClassifyKey(keys[t]).BadFragmentIndex?
    ensures Collect(keys).Seeded? ==>
              SeedWellFormed(Collect(keys)) && IsMaxIndex(ClassifyKeys(keys), Collect(keys).last)
  {
    var kinds := ClassifyKeys(keys);
    CollectKindsFails(kinds);
    assert forall j :: 0 <= j < |keys| ==> kinds[j] == ClassifyKey(keys[j]);
    if Collect(keys).Seeded? {
      CollectKindsMax(kinds);
      CollectWellFormed(kinds);
    }
  }

  /** Listing the same keys in another order, or with repeats, gives the same
      verdict and the same indices. */
  lemma SeedOrderIndependent(a: seq<string>, b: seq<string>)
    requires forall k :: k in a <==> k in b
    ensures Collect(a).Seeded? <==> Collect(b).Seeded?
    ensures Collect(a).Seeded? ==> Collect(a).last == Collect(b).last
  {
    var ka, kb := ClassifyKeys(a), ClassifyKeys(b);
    SameKinds(a, b);
    SameKinds(b, a);
    BadKindCarries(ka, kb);
    BadKindCarries(kb, ka);
    CollectKindsFails(ka);
    CollectKindsFails(kb);
    if Collect(a).Seeded? && Collect(b).Seeded? {
      CollectKindsMax(ka);
      CollectKindsMax(kb);
      SameMax(ka, kb, Collect(a).last, Collect(b).last);
    }
  }

  lemma SameKinds(a: seq<string>, b: seq<string>)
    requires forall k :: k in a ==> k in b
    ensures forall x :: x in ClassifyKeys(a) ==> x in ClassifyKeys(b)
  {
    forall x | x in ClassifyKeys(a) ensures x in ClassifyKeys(b) {
      var j :| 0 <= j < |a| && ClassifyKeys(a)[j] == x;
      assert a[j] in b;
      var t :| 0 <= t < |b| && b[t] == a[j];
      assert ClassifyKeys(b)[t] == x;
    }
  }

  lemma BadKindCarries(ka: seq<KeyKind>, kb: seq<KeyKind>)
    requires forall x :: x in ka ==> x in kb
    ensures (exists j :: 0 <= j < |ka| && ka[j].BadFragmentIndex?) ==>
            exists j :: 0 <= j < |kb| && kb[j].BadFragmentIndex?
  {
    if exists j :: 0 <= j < |ka| && ka[j].BadFragmentIndex? {
      var j :| 0 <= j < |ka| && ka[j].BadFragmentIndex?;
      assert ka[j] in kb;
    }
  }

  /** Two maxima over the same kinds agree. */
  lemma SameMax(ka: seq<KeyKind>, kb: seq<KeyKind>, la: map<string, int>, lb: map<string, int>)
    requires forall x :: x in ka <==> x in kb
    requires IsMaxIndex(ka, la) && IsMaxIndex(kb, lb)
    ensures la == lb
  {
    forall v | v in la ensures v in lb && la[v] <= lb[v] {
      var j :| 0 <= j < |ka| && ka[j] == FragmentOf(v, la[v]);
      assert ka[j] in kb;
      var t :| 0 <= t < |kb| && kb[t] == ka[j];
    }
    forall v | v in lb ensures v in la && lb[v] <= la[v] {
      var j :| 0 <= j < |kb| && kb[j] == FragmentOf(v, lb[v]);
      assert kb[j] in ka;
      var t :| 0 <= t < |ka| && ka[t] == kb[j];
    }
  }

  // ------------------------------------------------------------------ reading the seeded log back

  /** As written, a seeded line has two fields, so the loader skips it. */
  lemma SeedLineAsWrittenSkipped(video: string, last: int)
    requires RoundTrips(video)
    ensures ClassifyLine(SeedLineAsWritten(video, last)) == Malformed
  {
    var d := IntToString(last);
    var line := SeedLineAsWritten(video, last);
    IntToStringChars(last);
    IntToStringClean(last);
    assert line[|line| - 1] == d[|d| - 1];
    assert line[0] == if video != [] then video[0] else ',';
    StripIdentity(line);
    SplitCons(video, ',', d);
    assert Fields(line) == [video, d];
  }

  /** Hence the log `initialize_log_from_reels` writes loads as the empty map, and
      every video is processed again from fragment 0. */
  lemma {:induction false} SeededLogLoadsEmptyAsWritten(order: seq<string>, last: map<string, int>)
    requires forall v :: v in order ==> v in last && RoundTrips(v)
    ensures Fold(SeedLinesAsWritten(order, last)) == Loaded(map[])
    decreases |order|
  {
    if order != [] {
      var init := order[..|order| - 1];
      var v := order[|order| - 1];
      SeededLogLoadsEmptyAsWritten(init, last);
      SeedLineAsWrittenSkipped(v, last[v]);
      FoldSnoc(SeedLinesAsWritten(init, last), SeedLineAsWritten(v, last[v]));
    }
  }

  /** The seeded map in the loader's terms: each video's largest index, not
      complete. */
  function Entries(order: seq<string>, last: map<string, int>): (m: map<string, Entry>)
    requires forall v :: v in order ==> v in last
    ensures forall v :: v in m <==> v in order
    ensures forall v :: v in m ==> m[v] == Entry(last[v], false)
  {
    map v | v in order :: Entry(last[v], false)
  }

  /** With the status field written, the seeded log loads as each video's largest
      index, so the next run resumes each video after its last uploaded fragment. */
  lemma {:induction false} SeededLogLoads(order: seq<string>, last: map<string, int>)
    requires forall v :: v in order ==> v in last && RoundTrips(v)
    ensures Fold(SeedLines(order, last)) == Loaded(Entries(order, last))
    decreases |order|
  {
    if order != [] {
      var init := order[..|order| - 1];
      var v := order[|order| - 1];
      var lines := SeedLines(init, last);
      SeededLogLoads(init, last);
      assert SeedLines(order, last) == lines + [RecordLine(v, last[v], false)];
      SaveThenLoad(lines, v, last[v], false);
      EntriesSnoc(order, last);
    }
  }

  lemma EntriesSnoc(order: seq<string>, last: map<string, int>)
    requires order != []
    requires forall v :: v in order ==> v in last
    ensures Entries(order, last)
            == Entries(order[..|order| - 1], last)[order[|order| - 1] := Entry(last[order[|order| - 1]], false)]
  {
    var init := order[..|order| - 1];
    assert forall v :: v in order <==> v in init || v == order[|order| - 1];
  }

  /** After seeding from a complete listing, the loader returns, for every video
      with a fragment key and no other, the largest uploaded index, not complete. */
  lemma InitializeThenLoad(keys: seq<string>)
    requires Collect(keys).Seeded?
    requires forall v :: v in Collect(keys).order ==> RoundTrips(v)
    ensures forall v :: v in Collect(keys).order <==> v in Collect(keys).last
    ensures Fold(SeedLines(Collect(keys).order, Collect(keys).last))
            == Loaded(map v | v in Collect(keys).last :: Entry(Collect(keys).last[v], false))
  {
    var s := Collect(keys);
    SeedIsMax(keys);
    SeededLogLoads(s.order, s.last);
    assert Entries(s.order, s.last) == map v | v in s.last :: Entry(s.last[v], false);
  }
}

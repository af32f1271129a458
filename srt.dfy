/** `json_to_srt` and `format_timestamp`, identical in create-srt.py,
    crear-reels/transcription_utils.py and process-video-with-subtitles.py: the
    items of an Amazon Transcribe result become SubRip blocks
    `index / HH:MM:SS,mmm --> HH:MM:SS,mmm / text / blank line`, numbered from 1 over
    the items that carry a start time. Times are integer milliseconds. */
module Srt {
  import opened Text

  /** One entry of `data['results']['items']`: `start_time` and `end_time` when the
      item has them (punctuation items have neither), and the content of its first
      alternative. */
  datatype Item = Item(start: Option<nat>, end: Option<nat>, content: string)

  // ------------------------------------------------------------------ format_timestamp

  datatype Fields = Fields(hours: nat, minutes: nat, seconds: nat, millis: nat)

  /** `divmod(total_seconds, 3600)`, `divmod(remainder, 60)` and the milliseconds
      below the whole second. */
  function TimestampFields(ms: nat): (f: Fields)
    ensures f.minutes < 60 && f.seconds < 60 && f.millis < 1000
    ensures f.hours * 3600 + f.minutes * 60 + f.seconds == ms / 1000
    ensures (f.hours * 3600 + f.minutes * 60 + f.seconds) * 1000 + f.millis == ms
  {
    var total := ms / 1000;
    Fields(total / 3600, total % 3600 / 60, total % 3600 % 60, ms % 1000)
  }

  /** `f"{hours:02}:{minutes:02}:{seconds:02},{milliseconds:03}"`. */
  function FormatTimestamp(ms: nat): string {
    var f := TimestampFields(ms);
    PadNat(f.hours, 2) + ":" + (PadNat(f.minutes, 2) + ":" + (PadNat(f.seconds, 2) + "," + PadNat(f.millis, 3)))
  }

  /** Minutes and seconds take exactly two digits and milliseconds three; hours take
      at least two. */
  lemma TimestampWidths(ms: nat)
    ensures |PadNat(TimestampFields(ms).hours, 2)| >= 2
    ensures |PadNat(TimestampFields(ms).minutes, 2)| == 2
    ensures |PadNat(TimestampFields(ms).seconds, 2)| == 2
    ensures |PadNat(TimestampFields(ms).millis, 3)| == 3
    ensures |FormatTimestamp(ms)| == |PadNat(TimestampFields(ms).hours, 2)| + 10
  {
    var f := TimestampFields(ms);
    assert Pow10(2) == 100 && Pow10(3) == 1000 by {
      assert Pow10(1) == 10;
    }
    PadNatWidth(f.minutes, 2);
    PadNatWidth(f.seconds, 2);
    PadNatWidth(f.millis, 3);
  }

  /** Reading a `H:MM:SS,mmm` timestamp back: three `:` fields, the last split once
      more on `,`, every field a non-empty run of digits. */
  function ParseTimestamp(s: string): Option<nat> {
    var parts := Split(s, ':');
    if |parts| != 3 then None
    else
      var tail := Split(parts[2], ',');
      if |tail| != 2 then None else ParseFields(parts[0], parts[1], tail[0], tail[1])
  }

  function ParseFields(h: string, m: string, sec: string, x: string): Option<nat> {
    if Digits(h) && Digits(m) && Digits(sec) && Digits(x)
    then Some(ClockValue(DigitsValue(h), DigitsValue(m), DigitsValue(sec), DigitsValue(x)))
    else None
  }

  function ClockValue(h: nat, m: nat, sec: nat, x: nat): nat {
    ((h * 60 + m) * 60 + sec) * 1000 + x
  }

  predicate Digits(s: string) {
    s != [] && AllDigits(s)
  }

  lemma DigitsHaveNoSeparator(s: string)
    requires AllDigits(s)
    ensures ':' !in s && ',' !in s && '\n' !in s && ' ' !in s
  {
    assert forall i :: 0 <= i < |s| ==> IsDigit(s[i]);
  }

  lemma PadNatDigits(n: nat, w: nat)
    ensures Digits(PadNat(n, w)) && DigitsValue(PadNat(n, w)) == n
    ensures ':' !in PadNat(n, w) && ',' !in PadNat(n, w) && '\n' !in PadNat(n, w) && ' ' !in PadNat(n, w)
  {
    PadNatValue(n, w);
    NatToStringDigits(n);
    DigitsHaveNoSeparator(PadNat(n, w));
  }

  /** Splitting `a + [c] + b` where `c` is not in `a` or `b` gives exactly `a` and `b`. */
  lemma SplitTwo(a: string, c: char, b: string)
    requires c !in a && c !in b
    ensures |Split(a + [c] + b, c)| == 2 && Split(a + [c] + b, c)[0] == a && Split(a + [c] + b, c)[1] == b
  {
    SplitCons(a, c, b);
    assert Split(b, c) == [b];
  }

  /** Four digit fields joined as `h:m:s,x` parse back field by field. */
  lemma ParseJoinedFields(h: string, m: string, sec: string, x: string)
    requires Digits(h) && Digits(m) && Digits(sec) && Digits(x)
    ensures ParseTimestamp(h + ":" + (m + ":" + (sec + "," + x)))
            == Some(ClockValue(DigitsValue(h), DigitsValue(m), DigitsValue(sec), DigitsValue(x)))
  {
    DigitsHaveNoSeparator(h);
    DigitsHaveNoSeparator(m);
    DigitsHaveNoSeparator(sec);
    DigitsHaveNoSeparator(x);
    var last := sec + [','] + x;
    assert ':' !in last;
    SplitTwo(m, ':', last);
    SplitCons(h, ':', m + [':'] + last);
    var t := h + ":" + (m + ":" + (sec + "," + x));
    assert t == h + [':'] + (m + [':'] + last);
    var parts := Split(t, ':');
    assert |parts| == 3 && parts[0] == h && parts[1] == m && parts[2] == last;
    SplitTwo(sec, ',', x);
    var tail := Split(last, ',');
    assert |tail| == 2 && tail[0] == sec && tail[1] == x;
    assert ParseTimestamp(t) == ParseFields(h, m, sec, x);
  }

  /** The timestamp reads back as the milliseconds it was made from. */
  lemma TimestampRoundTrip(ms: nat)
    ensures ParseTimestamp(FormatTimestamp(ms)) == Some(ms)
  {
    var f := TimestampFields(ms);
    PadNatDigits(f.hours, 2);
    PadNatDigits(f.minutes, 2);
    PadNatDigits(f.seconds, 2);
    PadNatDigits(f.millis, 3);
    ParseJoinedFields(PadNat(f.hours, 2), PadNat(f.minutes, 2), PadNat(f.seconds, 2), PadNat(f.millis, 3));
    assert ClockValue(f.hours, f.minutes, f.seconds, f.millis) == ms;
  }

  // ------------------------------------------------------------------ one block

  /** `hh:mm:ss,mmm --> hh:mm:ss,mmm`. */
  function TimeLine(start: nat, end: nat): string {
    FormatTimestamp(start) + " --> " + FormatTimestamp(end)
  }

  /** One written SubRip cue: its number, its times and its text. */
  datatype Cue = Cue(index: nat, start: nat, end: nat, content: string)

  /** The three writes for one cue: `f"{index}\n"`, the time line with `"\n"`, and
      the text with `"\n\n"`. */
  function Block(c: Cue): string {
    NatToString(c.index) + "\n" + (TimeLine(c.start, c.end) + "\n" + (c.content + "\n" + "\n"))
  }

  /** The file text for a sequence of written cues. */
  function Render(cs: seq<Cue>): string
    decreases |cs|
  {
    if cs == [] then "" else Render(cs[..|cs| - 1]) + Block(cs[|cs| - 1])
  }

  lemma RenderSnoc(cs: seq<Cue>, c: Cue)
    ensures Render(cs + [c]) == Render(cs) + Block(c)
  {
    assert (cs + [c])[..|cs|] == cs;
  }

  /** The three `write` calls append exactly one block. */
  lemma WritesAreBlock(text: string, c: Cue)
    ensures text + (NatToString(c.index) + "\n") + (TimeLine(c.start, c.end) + "\n") + (c.content + "\n" + "\n")
            == text + Block(c)
  {
  }

  lemma TimestampOneLine(ms: nat)
    ensures '\n' !in FormatTimestamp(ms)
  {
    var f := TimestampFields(ms);
    PadNatDigits(f.hours, 2);
    PadNatDigits(f.minutes, 2);
    PadNatDigits(f.seconds, 2);
    PadNatDigits(f.millis, 3);
  }

  lemma TimeLineOneLine(start: nat, end: nat)
    ensures '\n' !in TimeLine(start, end)
  {
    TimestampOneLine(start);
    TimestampOneLine(end);
  }

  /** The last line and the blank line after it. */
  lemma SplitTrailing(t: string, sep: char)
    requires sep !in t
    ensures var lines := Split(t + [sep] + [sep], sep);
            && |lines| == 3 && lines[0] == t && lines[1] == [] && lines[2] == []
  {
    var e: string := [];
    SplitCons(e, sep, e);
    assert e + [sep] + e == [sep];
    var l3 := Split([sep], sep);
    assert l3 == [e] + Split(e, sep) == [e, e];
    SplitCons(t, sep, [sep]);
    var l2 := Split(t + [sep] + [sep], sep);
    assert l2 == [t] + l3;
    assert l2[1] == l3[0];
    assert l2[2] == l3[1];
  }

  /** Splitting off the first line shifts the remaining pieces by one. */
  lemma SplitHead(a: string, sep: char, rest: string)
    requires sep !in a
    ensures var lines := Split(a + [sep] + rest, sep);
            && |lines| == |Split(rest, sep)| + 1 && lines[0] == a
            && forall k :: 0 <= k < |Split(rest, sep)| ==> lines[k + 1] == Split(rest, sep)[k]
  {
    SplitCons(a, sep, rest);
  }

  /** Three lines, each ended by a separator, and one more separator. */
  lemma SplitLines(a: string, b: string, t: string, sep: char)
    requires sep !in a && sep !in b && sep !in t
    ensures var lines := Split(a + [sep] + (b + [sep] + (t + [sep] + [sep])), sep);
            && |lines| == 5 && lines[0] == a && lines[1] == b && lines[2] == t && lines[3] == [] && lines[4] == []
  {
    SplitTrailing(t, sep);
    SplitHead(b, sep, t + [sep] + [sep]);
    SplitHead(a, sep, b + [sep] + (t + [sep] + [sep]));
  }

  /** A block is the index line, the time line, the text line and a blank line
      (the final `"\n"` leaves an empty piece after it). */
  lemma BlockLayout(c: Cue)
    requires '\n' !in c.content
    ensures var lines := Split(Block(c), '\n');
            && |lines| == 5 && lines[0] == NatToString(c.index) && lines[1] == TimeLine(c.start, c.end)
            && lines[2] == c.content && lines[3] == "" && lines[4] == ""
  {
    NatToStringDigits(c.index);
    DigitsHaveNoSeparator(NatToString(c.index));
    TimeLineOneLine(c.start, c.end);
    SplitLines(NatToString(c.index), TimeLine(c.start, c.end), c.content, '\n');
  }

  // ------------------------------------------------------------------ json_to_srt

  /** The loop's state: the cues written so far, why it stopped early (the position
      of an item with a start time but no `end_time`, where `item['end_time']`
      raises `KeyError`), and the next index. */
  datatype Conversion = Conversion(cues: seq<Cue>, failure: Option<nat>, next: nat)

  /** The loop's state after `items`. */
  function Convert(items: seq<Item>): (c: Conversion)
    ensures c.next == |c.cues| + 1
    ensures c.failure.Some? ==> c.failure.value < |items|
    decreases |items|
  {
    if items == [] then Conversion([], None, 1)
    else
      var c := Convert(items[..|items| - 1]);
      var it := items[|items| - 1];
      if c.failure.Some? || it.start.None? then c
      else if it.end.None? then Conversion(c.cues, Some(|items| - 1), c.next)
      else Conversion(c.cues + [Cue(c.next, it.start.value, it.end.value, it.content)], None, c.next + 1)
  }

  lemma ConvertNext(items: seq<Item>, i: nat)
    requires i < |items|
    ensures Convert(items[..i + 1]) == (
      var c := Convert(items[..i]);
      var it := items[i];
      if c.failure.Some? || it.start.None? then c
      else if it.end.None? then Conversion(c.cues, Some(i), c.next)
      else Conversion(c.cues + [Cue(c.next, it.start.value, it.end.value, it.content)], None, c.next + 1))
  {
    assert items[..i + 1][..i] == items[..i];
  }

  lemma {:induction false} ConvertStops(items: seq<Item>, k: nat)
    requires k <= |items|
    requires Convert(items[..k]).failure.Some?
    ensures Convert(items) == Convert(items[..k])
    decreases |items| - k
  {
    if k < |items| {
      ConvertNext(items, k);
      ConvertStops(items, k + 1);
    } else {
      assert items[..k] == items;
    }
  }

  /** One loop step that writes a cue. */
  lemma ConvertWrites(items: seq<Item>, i: nat, cues: seq<Cue>, index: nat)
    requires i < |items| && items[i].start.Some? && items[i].end.Some?
    requires Convert(items[..i]) == Conversion(cues, None, index)
    ensures Convert(items[..i + 1])
            == Conversion(cues + [Cue(index, items[i].start.value, items[i].end.value, items[i].content)], None, index + 1)
  {
    ConvertNext(items, i);
  }

  /** One loop step over an item without a start time. */
  lemma ConvertSkips(items: seq<Item>, i: nat)
    requires i < |items| && items[i].start.None?
    ensures Convert(items[..i + 1]) == Convert(items[..i])
  {
    ConvertNext(items, i);
  }

  /** The step that raises `KeyError`. */
  lemma ConvertFails(items: seq<Item>, i: nat, cues: seq<Cue>, index: nat)
    requires i < |items| && items[i].start.Some? && items[i].end.None?
    requires Convert(items[..i]) == Conversion(cues, None, index)
    ensures Convert(items) == Conversion(cues, Some(i), index)
  {
    ConvertNext(items, i);
    ConvertStops(items, i + 1);
  }

  /** `json_to_srt(json_file, srt_file)` over the parsed items: `index` starts at 1
      and grows by one per written block; the file holds what was written before a
      `KeyError`, and the error names the offending item. */
  method JsonToSrt(items: seq<Item>) returns (text: string, failure: Option<nat>)
    ensures text == Render(Convert(items).cues) && failure == Convert(items).failure
  {
    text := "";
    var index := 1;
    ghost var cues := [];
    var i := 0;
    while i < |items|
      invariant 0 <= i <= |items|
      invariant Convert(items[..i]) == Conversion(cues, None, index)
      invariant text == Render(cues)
    {
      var it := items[i];
      if it.start.None? {
        ConvertSkips(items, i);
      } else {
        if it.end.None? {
          ConvertFails(items, i, cues, index);
          return text, Some(i);
        }
        ghost var cue := Cue(index, it.start.value, it.end.value, it.content);
        ConvertWrites(items, i, cues, index);
        WritesAreBlock(text, cue);
        RenderSnoc(cues, cue);
        text := text + (NatToString(index) + "\n");
        text := text + (TimeLine(it.start.value, it.end.value) + "\n");
        text := text + (it.content + "\n" + "\n");
        cues := cues + [cue];
        index := index + 1;
      }
      i := i + 1;
    }
    assert items[..i] == items;
    failure := None;
  }

  // ------------------------------------------------------------------ what the output means

  /** The items that carry a start time, in order. */
  function Timed(items: seq<Item>): (ts: seq<Item>)
    ensures |ts| <= |items|
    ensures forall k :: 0 <= k < |ts| ==> ts[k].start.Some?
    ensures Ended(items) ==> forall k :: 0 <= k < |ts| ==> ts[k].end.Some?
    decreases |items|
  {
    if items == [] then []
    else
      var rest := Timed(items[..|items| - 1]);
      if items[|items| - 1].start.Some? then rest + [items[|items| - 1]] else rest
  }

  /** Every timed item also has an end time. */
  predicate Ended(items: seq<Item>) {
    forall j :: 0 <= j < |items| && items[j].start.Some? ==> items[j].end.Some?
  }

  /** The cues for timed, ended items, numbered 1, 2, ... in order. */
  function Numbered(ts: seq<Item>): (cs: seq<Cue>)
    requires forall k :: 0 <= k < |ts| ==> ts[k].start.Some? && ts[k].end.Some?
    ensures |cs| == |ts|
  {
    seq(|ts|, k requires 0 <= k < |ts| => Cue(k + 1, ts[k].start.value, ts[k].end.value, ts[k].content))
  }

  lemma NumberedSnoc(ts: seq<Item>, x: Item)
    requires forall k :: 0 <= k < |ts| ==> ts[k].start.Some? && ts[k].end.Some?
    requires x.start.Some? && x.end.Some?
    ensures Numbered(ts + [x]) == Numbered(ts) + [Cue(|ts| + 1, x.start.value, x.end.value, x.content)]
  {
    var cs := Numbered(ts + [x]);
    forall k | 0 <= k < |ts| ensures cs[k] == Numbered(ts)[k] {
      assert (ts + [x])[k] == ts[k];
    }
  }

  /** The conversion succeeds exactly when every timed item has an end time, and
      then writes one cue per timed item, numbered consecutively from 1. On the
      first timed item without an end time it stops, having written the cues of
      the timed items before it. */
  lemma {:induction false} ConvertMeaning(items: seq<Item>)
    ensures Convert(items).failure.None? <==> Ended(items)
    ensures Ended(items) ==> Convert(items).cues == Numbered(Timed(items))
    ensures Convert(items).failure.Some? ==>
              var i := Convert(items).failure.value;
              && items[i].start.Some? && items[i].end.None? && Ended(items[..i])
              && Convert(items).cues == Numbered(Timed(items[..i]))
    decreases |items|
  {
    if items != [] {
      var init, it := items[..|items| - 1], items[|items| - 1];
      ConvertMeaning(init);
      assert forall j :: 0 <= j < |init| ==> init[j] == items[j];
      var c := Convert(init);
      if c.failure.Some? {
        var i := c.failure.value;
        assert items[..i] == init[..i];
      } else if it.start.None? {
        assert Timed(items) == Timed(init);
      } else if it.end.None? {
        assert items[..|init|] == init;
      } else {
        assert Timed(items) == Timed(init) + [it];
        NumberedSnoc(Timed(init), it);
      }
    }
  }
}

/** The karaoke caption overlay of crear-reels/subtitle_utils.py, repeated inline in
    process-video-with-subtitles.py: a cue's text is packed greedily into two lines
    no wider than the frame's safe width, the lines are centred 50 px apart, the
    word being spoken gets a box behind it, and the words are drawn left to right
    20 px apart. Text extents (`cv2.getTextSize`) are the parameters `width` and
    `height`; times are integer milliseconds. */
module Captions {
  import opened Text

  /** The gap `draw_background` and `draw_remaining_text` leave after each word. */
  const WORD_GAP := 20
  /** A karaoke cycle: `elapsed_ratio = (t % 2) / 2`, two seconds. */
  const CYCLE_MS := 2000

  // ------------------------------------------------------------------ split_text

  /** The accumulator `line += word + " "` after the words `ws`. */
  function Spaced(ws: seq<string>): string
    decreases |ws|
  {
    if ws == [] then "" else Spaced(ws[..|ws| - 1]) + (ws[|ws| - 1] + " ")
  }

  /** Where `split_text` puts a word. */
  datatype Place = Line1 | Line2 | Dropped

  /** The words accepted into each line, in order, and the place of every input
      word. */
  datatype Packing = Packing(first: seq<string>, second: seq<string>, places: seq<Place>)

  /** The greedy rule: a word goes to the first line when the first line's text so
      far followed by the word fits, else to the second line on the same test, else
      nowhere; the first line is tried again for every word. */
  function Pack(words: seq<string>, maxWidth: int, width: string -> nat): (r: Packing)
    ensures |r.places| == |words|
    decreases |words|
  {
    if words == [] then Packing([], [], [])
    else
      var r := Pack(words[..|words| - 1], maxWidth, width);
      var w := words[|words| - 1];
      if width(Spaced(r.first) + w) <= maxWidth then Packing(r.first + [w], r.second, r.places + [Line1])
      else if width(Spaced(r.second) + w) <= maxWidth then Packing(r.first, r.second + [w], r.places + [Line2])
      else Packing(r.first, r.second, r.places + [Dropped])
  }

  lemma PackNext(words: seq<string>, maxWidth: int, width: string -> nat, i: nat)
    requires i < |words|
    ensures Pack(words[..i + 1], maxWidth, width) == (
      var r := Pack(words[..i], maxWidth, width);
      if width(Spaced(r.first) + words[i]) <= maxWidth then Packing(r.first + [words[i]], r.second, r.places + [Line1])
      else if width(Spaced(r.second) + words[i]) <= maxWidth then Packing(r.first, r.second + [words[i]], r.places + [Line2])
      else Packing(r.first, r.second, r.places + [Dropped]))
  {
    assert words[..i + 1][..i] == words[..i];
  }

  /** `split_text(text, max_width, ...)`: the loop over `text.split()`, then
      `line1.strip(), line2.strip()`. */
  method SplitText(text: string, maxWidth: int, width: string -> nat) returns (line1: string, line2: string)
    ensures line1 == JoinSpace(Pack(SplitWords(text), maxWidth, width).first)
    ensures line2 == JoinSpace(Pack(SplitWords(text), maxWidth, width).second)
  {
    var words := SplitWords(text);
    var l1, l2 := "", "";
    var i := 0;
    while i < |words|
      invariant 0 <= i <= |words|
      invariant l1 == Spaced(Pack(words[..i], maxWidth, width).first)
      invariant l2 == Spaced(Pack(words[..i], maxWidth, width).second)
    {
      PackNext(words, maxWidth, width, i);
      var word := words[i];
      if width(l1 + word) <= maxWidth {
        l1 := l1 + (word + " ");
      } else if width(l2 + word) <= maxWidth {
        l2 := l2 + (word + " ");
      }
      i := i + 1;
    }
    assert words[..i] == words;
    PackKeepsWords(words, maxWidth, width);
    StripSpaced(Pack(words, maxWidth, width).first);
    StripSpaced(Pack(words, maxWidth, width).second);
    line1 := Strip(l1);
    line2 := Strip(l2);
  }

  // ------------------------------------------------------------------ properties of the packing

  lemma {:induction false} SpacedIsJoin(ws: seq<string>)
    requires ws != []
    ensures Spaced(ws) == JoinSpace(ws) + " "
    decreases |ws|
  {
    var init, w := ws[..|ws| - 1], ws[|ws| - 1];
    assert ws == init + [w];
    JoinSpaceSnoc(init, w);
    if init != [] {
      SpacedIsJoin(init);
    }
  }

  /** The text tested for a word is the line the word would complete. */
  lemma CandidateIsLine(ws: seq<string>, w: string)
    ensures Spaced(ws) + w == JoinSpace(ws + [w])
  {
    JoinSpaceSnoc(ws, w);
    if ws != [] {
      SpacedIsJoin(ws);
    }
  }

  /** `strip()` of the accumulator is the words joined by single spaces. */
  lemma StripSpaced(ws: seq<string>)
    requires forall k :: 0 <= k < |ws| ==> IsWord(ws[k])
    ensures Strip(Spaced(ws)) == JoinSpace(ws)
  {
    if ws != [] {
      var s := JoinSpace(ws);
      SpacedIsJoin(ws);
      JoinSpaceEnds(ws);
      assert (s + " ")[..|s|] == s;
      assert TrimRight(s + " ") == TrimRight(s) == s;
    }
  }

  /** The words of `ws` whose place is `p`, in order. */
  function Kept(ws: seq<string>, places: seq<Place>, p: Place): seq<string>
    requires |places| == |ws|
    decreases |ws|
  {
    if ws == [] then []
    else
      var rest := Kept(ws[..|ws| - 1], places[..|ws| - 1], p);
      if places[|ws| - 1] == p then rest + [ws[|ws| - 1]] else rest
  }

  /** Each line holds exactly the input words placed on it, in input order. */
  lemma {:induction false} PackWords(words: seq<string>, maxWidth: int, width: string -> nat)
    ensures Pack(words, maxWidth, width).first == Kept(words, Pack(words, maxWidth, width).places, Line1)
    ensures Pack(words, maxWidth, width).second == Kept(words, Pack(words, maxWidth, width).places, Line2)
    decreases |words|
  {
    if words != [] {
      var init := words[..|words| - 1];
      PackWords(init, maxWidth, width);
      assert Pack(words, maxWidth, width).places[..|init|] == Pack(init, maxWidth, width).places;
    }
  }

  /** Every line word is a word of the input. */
  lemma {:induction false} PackKeepsWords(words: seq<string>, maxWidth: int, width: string -> nat)
    requires forall k :: 0 <= k < |words| ==> IsWord(words[k])
    ensures forall k :: 0 <= k < |Pack(words, maxWidth, width).first| ==> IsWord(Pack(words, maxWidth, width).first[k])
    ensures forall k :: 0 <= k < |Pack(words, maxWidth, width).second| ==> IsWord(Pack(words, maxWidth, width).second[k])
    decreases |words|
  {
    if words != [] {
      var init := words[..|words| - 1];
      assert forall k :: 0 <= k < |init| ==> init[k] == words[k];
      PackKeepsWords(init, maxWidth, width);
    }
  }

  /** No word is duplicated: the two lines together hold at most the input's words,
      each at most as often as it occurs. */
  lemma {:induction false} KeptCount(ws: seq<string>, places: seq<Place>)
    requires |places| == |ws|
    ensures multiset(Kept(ws, places, Line1)) + multiset(Kept(ws, places, Line2)) <= multiset(ws)
    ensures |Kept(ws, places, Line1)| + |Kept(ws, places, Line2)| <= |ws|
    decreases |ws|
  {
    if ws != [] {
      var init, x := ws[..|ws| - 1], ws[|ws| - 1];
      var ps := places[..|ws| - 1];
      KeptCount(init, ps);
      assert ws == init + [x];
      assert multiset(ws) == multiset(init) + multiset{x};
      var k1, k2 := Kept(init, ps, Line1), Kept(init, ps, Line2);
      if places[|ws| - 1] == Line1 {
        assert Kept(ws, places, Line1) == k1 + [x] && Kept(ws, places, Line2) == k2;
      } else if places[|ws| - 1] == Line2 {
        assert Kept(ws, places, Line1) == k1 && Kept(ws, places, Line2) == k2 + [x];
      } else {
        assert Kept(ws, places, Line1) == k1 && Kept(ws, places, Line2) == k2;
      }
    }
  }

  /** A non-empty line is the last text that passed the width test, so it fits. */
  lemma {:induction false} PackFits(words: seq<string>, maxWidth: int, width: string -> nat)
    ensures Pack(words, maxWidth, width).first != [] ==> width(JoinSpace(Pack(words, maxWidth, width).first)) <= maxWidth
    ensures Pack(words, maxWidth, width).second != [] ==> width(JoinSpace(Pack(words, maxWidth, width).second)) <= maxWidth
    decreases |words|
  {
    if words != [] {
      var init, w := words[..|words| - 1], words[|words| - 1];
      PackFits(init, maxWidth, width);
      var r := Pack(init, maxWidth, width);
      CandidateIsLine(r.first, w);
      CandidateIsLine(r.second, w);
    }
  }

  /** What `split_text` returns: two lines that fit, whose `split()` gives back the
      words placed on them, and no more words than the text had. */
  lemma SplitTextLines(text: string, maxWidth: int, width: string -> nat)
    ensures var p := Pack(SplitWords(text), maxWidth, width);
      && (p.first != [] ==> width(JoinSpace(p.first)) <= maxWidth)
      && (p.second != [] ==> width(JoinSpace(p.second)) <= maxWidth)
      && SplitWords(JoinSpace(p.first)) == p.first
      && SplitWords(JoinSpace(p.second)) == p.second
      && multiset(p.first) + multiset(p.second) <= multiset(SplitWords(text))
  {
    var words := SplitWords(text);
    var p := Pack(words, maxWidth, width);
    PackFits(words, maxWidth, width);
    PackWords(words, maxWidth, width);
    PackKeepsWords(words, maxWidth, width);
    KeptCount(words, p.places);
    SplitWordsJoinSpace(p.first);
    SplitWordsJoinSpace(p.second);
  }

  /** The first line is retried for every word: with widths equal to lengths and
      room for five characters, `abc defgh x` packs `x` after `abc` on the first
      line although `defgh` already went to the second. */
  lemma LaterWordReturnsToFirstLine(width: string -> nat)
    requires forall s :: width(s) == |s|
    ensures Pack(["abc", "defgh", "x"], 5, width) == Packing(["abc", "x"], ["defgh"], [Line1, Line2, Line1])
  {
    var ws := ["abc", "defgh", "x"];
    assert ws[..2] == ["abc", "defgh"];
    assert ws[..2][..1] == ["abc"];
    assert ws[..2][..1][..0] == [];
    assert Spaced(["abc"]) == "abc ";
    assert Pack(["abc"], 5, width) == Packing(["abc"], [], [Line1]);
    assert width("abc " + "defgh") == 9;
    assert width("" + "defgh") == 5;
    assert Pack(["abc", "defgh"], 5, width) == Packing(["abc"], ["defgh"], [Line1, Line2]);
    assert width("abc " + "x") == 5;
  }

  // ------------------------------------------------------------------ calculate_text_positions

  datatype Point = Point(x: int, y: int)

  /** `calculate_text_positions` (and the same lines inline in
      process-video-with-subtitles.py): each line centred horizontally, both
      baselines placed from the first line's height. */
  function TextPositions(frameWidth: int, frameHeight: int, line1: string, line2: string,
                         width: string -> nat, height: string -> nat): (r: (Point, Point))
    ensures 2 * r.0.x <= frameWidth - width(line1) <= 2 * r.0.x + 1
    ensures 2 * r.1.x <= frameWidth - width(line2) <= 2 * r.1.x + 1
    ensures r.1.y - r.0.y == 50
  {
    (Point((frameWidth - width(line1)) / 2, (frameHeight + height(line1)) / 2 - 30),
     Point((frameWidth - width(line2)) / 2, (frameHeight + height(line1)) / 2 + 20))
  }

  // ------------------------------------------------------------------ draw_remaining_text

  /** The horizontal advance over `ws`: each word's width plus the gap. */
  function Advance(ws: seq<string>, width: string -> nat): nat
    decreases |ws|
  {
    if ws == [] then 0 else Advance(ws[..|ws| - 1], width) + width(ws[|ws| - 1]) + WORD_GAP
  }

  lemma AdvanceNext(ws: seq<string>, width: string -> nat, j: nat)
    requires j < |ws|
    ensures Advance(ws[..j + 1], width) == Advance(ws[..j], width) + width(ws[j]) + WORD_GAP
  {
    assert ws[..j + 1][..j] == ws[..j];
  }

  /** One `cv2.putText` call: the word and its anchor. */
  datatype Placed = Placed(word: string, x: int, y: int)

  /** Where the words of one line are drawn, from the line's anchor. */
  function Placements(ws: seq<string>, start: Point, width: string -> nat): (r: seq<Placed>)
    ensures |r| == |ws|
  {
    seq(|ws|, k requires 0 <= k < |ws| => Placed(ws[k], start.x + Advance(ws[..k], width), start.y))
  }

  /** Words of a line sit left to right: the first at the anchor, each next one the
      previous word's width plus the gap further right, all on the anchor's
      baseline. */
  lemma PlacementsSpacing(ws: seq<string>, start: Point, width: string -> nat)
    ensures ws != [] ==> Placements(ws, start, width)[0] == Placed(ws[0], start.x, start.y)
    ensures forall k :: 0 <= k < |ws| - 1 ==>
              Placements(ws, start, width)[k + 1].x
              == Placements(ws, start, width)[k].x + width(ws[k]) + WORD_GAP
    ensures forall k :: 0 <= k < |ws| ==> Placements(ws, start, width)[k].y == start.y
  {
    forall k | 0 <= k < |ws| - 1
      ensures Placements(ws, start, width)[k + 1].x == Placements(ws, start, width)[k].x + width(ws[k]) + WORD_GAP
    {
      AdvanceNext(ws, width, k);
    }
  }

  lemma PlacementsNext(ws: seq<string>, start: Point, width: string -> nat, k: nat)
    requires k < |ws|
    ensures Placements(ws[..k + 1], start, width)
            == Placements(ws[..k], start, width) + [Placed(ws[k], start.x + Advance(ws[..k], width), start.y)]
  {
    var a := Placements(ws[..k + 1], start, width);
    var b := Placements(ws[..k], start, width) + [Placed(ws[k], start.x + Advance(ws[..k], width), start.y)];
    forall j | 0 <= j < k + 1 ensures a[j] == b[j] {
      assert ws[..k + 1][..j] == ws[..j];
      if j < k {
        assert ws[..k][..j] == ws[..j];
      }
    }
    assert |a| == |b|;
  }

  /** One line of `draw_remaining_text`: the loop advancing `x`. */
  method DrawLine(line: string, start: Point, width: string -> nat) returns (placed: seq<Placed>)
    ensures placed == Placements(SplitWords(line), start, width)
  {
    var words := SplitWords(line);
    var x := start.x;
    placed := [];
    var k := 0;
    while k < |words|
      invariant 0 <= k <= |words|
      invariant x == start.x + Advance(words[..k], width)
      invariant placed == Placements(words[..k], start, width)
    {
      AdvanceNext(words, width, k);
      PlacementsNext(words, start, width, k);
      placed := placed + [Placed(words[k], x, start.y)];
      x := x + width(words[k]) + WORD_GAP;
      k := k + 1;
    }
    assert words[..k] == words;
  }

  /** `draw_remaining_text`: the first line's words from its anchor, then the
      second line's from its anchor. */
  method DrawRemainingText(line1: string, line2: string, p1: Point, p2: Point, width: string -> nat)
    returns (placed: seq<Placed>)
    ensures placed == Placements(SplitWords(line1), p1, width) + Placements(SplitWords(line2), p2, width)
  {
    var a := DrawLine(line1, p1, width);
    var b := DrawLine(line2, p2, width);
    placed := a + b;
  }

  // ------------------------------------------------------------------ draw_background

  /** `int(elapsed_ratio * total_words)` with `elapsed_ratio = (t % 2) / 2`. */
  function HighlightIndex(tMs: nat, total: nat): nat {
    (tMs % CYCLE_MS) * total / CYCLE_MS
  }

  /** The index is a valid word position whenever there is a word. */
  lemma HighlightIndexBounds(tMs: nat, total: nat)
    ensures total == 0 ==> HighlightIndex(tMs, total) == 0
    ensures total > 0 ==> HighlightIndex(tMs, total) < total
  {
    var r := tMs % CYCLE_MS;
    if total > 0 {
      MulBelow(r, CYCLE_MS, total);
      var x := r * total;
      assert x < CYCLE_MS * total;
    }
  }

  lemma MulBelow(a: nat, b: nat, c: nat)
    requires a < b && c > 0
    ensures a * c < b * c
  {
    assert b * c == a * c + (b - a) * c;
  }


  /** The purple box behind the current word, or the `IndexError` of
      `words_line2[word_index - len(words_line1)]` when both lines are empty. */
  datatype Background =
    | Box(word: string, at: Point, topLeft: Point, bottomRight: Point)
    | NoWord

  /** The box for the word drawn with its baseline origin at `at`. The word's ink
      runs from `at.x` to `at.x + width(word)` and from `at.y - height(word)` up to
      the baseline `at.y`; the box encloses that extent with a 5 px margin left and
      right and a 10 px margin above and below. */
  function BoxAt(word: string, at: Point, width: string -> nat, height: string -> nat): (b: Background)
    ensures b.Box? && b.word == word && b.at == at
    ensures b.topLeft.x < at.x && at.x + width(word) < b.bottomRight.x
    ensures b.topLeft.y < at.y - height(word) && at.y < b.bottomRight.y
    ensures at.x - b.topLeft.x == b.bottomRight.x - (at.x + width(word)) == 5
    ensures (at.y - height(word)) - b.topLeft.y == b.bottomRight.y - at.y == 10
  {
    Box(word, at, Point(at.x - 5, at.y - height(word) - 10), Point(at.x + width(word) + 5, at.y + 10))
  }

  /** What `draw_background` draws, in terms of the line words. */
  function BackgroundOf(words1: seq<string>, words2: seq<string>, tMs: nat, p1: Point, p2: Point,
                        width: string -> nat, height: string -> nat): Background
  {
    var i := HighlightIndex(tMs, |words1| + |words2|);
    if i < |words1| then
      BoxAt(words1[i], Point(p1.x + Advance(words1[..i], width), p1.y), width, height)
    else if i - |words1| < |words2| then
      var j := i - |words1|;
      BoxAt(words2[j], Point(p2.x + Advance(words2[..j], width), p2.y), width, height)
    else NoWord
  }

  /** The loop `for w in words[:n]: x += width(w) + 20`. */
  method AdvanceOver(words: seq<string>, n: nat, x0: int, width: string -> nat) returns (x: int)
    requires n <= |words|
    ensures x == x0 + Advance(words[..n], width)
  {
    x := x0;
    var j := 0;
    while j < n
      invariant 0 <= j <= n
      invariant x == x0 + Advance(words[..j], width)
    {
      AdvanceNext(words, width, j);
      x := x + width(words[j]) + WORD_GAP;
      j := j + 1;
    }
  }

  /** `draw_background(frame, line1, line2, ..., elapsed_ratio, text_positions)`. */
  method DrawBackground(line1: string, line2: string, tMs: nat, p1: Point, p2: Point,
                        width: string -> nat, height: string -> nat) returns (r: Background)
    ensures r == BackgroundOf(SplitWords(line1), SplitWords(line2), tMs, p1, p2, width, height)
  {
    var words1 := SplitWords(line1);
    var words2 := SplitWords(line2);
    var total := |words1| + |words2|;
    var i := HighlightIndex(tMs, total);
    if i < |words1| {
      var x := AdvanceOver(words1, i, p1.x, width);
      r := BoxAt(words1[i], Point(x, p1.y), width, height);
    } else {
      var j := i - |words1|;
      if j >= |words2| {
        return NoWord;
      }
      var x := AdvanceOver(words2, j, p2.x, width);
      r := BoxAt(words2[j], Point(x, p2.y), width, height);
    }
  }

  /** The box fails to exist exactly when both lines are empty; otherwise it sits
      under the word `draw_remaining_text` draws at the highlighted position,
      anchored where that word is drawn. */
  lemma HighlightOnDrawnWord(words1: seq<string>, words2: seq<string>, tMs: nat, p1: Point, p2: Point,
                             width: string -> nat, height: string -> nat)
    ensures BackgroundOf(words1, words2, tMs, p1, p2, width, height).NoWord? <==> words1 == [] && words2 == []
    ensures BackgroundOf(words1, words2, tMs, p1, p2, width, height).Box? ==>
              var i := HighlightIndex(tMs, |words1| + |words2|);
              var b := BackgroundOf(words1, words2, tMs, p1, p2, width, height);
              && i < |words1| + |words2|
              && (Placements(words1, p1, width) + Placements(words2, p2, width))[i] == Placed(b.word, b.at.x, b.at.y)
  {
    HighlightIndexBounds(tMs, |words1| + |words2|);
  }

  // ------------------------------------------------------------------ add_subtitles

  /** A subtitle: `start.ordinal` and `end.ordinal` in milliseconds, and its text. */
  datatype Cue = Cue(start: int, end: int, text: string)

  /** `subtitle.start.ordinal <= t * 1000 < subtitle.end.ordinal`. */
  predicate Active(c: Cue, tMs: nat) {
    c.start <= tMs < c.end
  }

  /** The first active cue, as the loop with `break` finds it. */
  function FirstActive(cues: seq<Cue>, tMs: nat): (r: Option<nat>)
    ensures r.Some? ==> r.value < |cues| && Active(cues[r.value], tMs)
    decreases |cues|
  {
    if cues == [] then None
    else if Active(cues[0], tMs) then Some(0)
    else match FirstActive(cues[1..], tMs)
      case None => None
      case Some(j) => Some(j + 1)
  }

  /** `FirstActive` finds the earliest active cue, and none only when no cue is
      active. */
  lemma {:induction false} FirstActiveIsFirst(cues: seq<Cue>, tMs: nat)
    ensures FirstActive(cues, tMs).None? <==> forall j :: 0 <= j < |cues| ==> !Active(cues[j], tMs)
    ensures FirstActive(cues, tMs).Some? ==>
              forall j :: 0 <= j < FirstActive(cues, tMs).value ==> !Active(cues[j], tMs)
    decreases |cues|
  {
    if cues != [] && !Active(cues[0], tMs) {
      FirstActiveIsFirst(cues[1..], tMs);
      assert forall j :: 1 <= j < |cues| ==> cues[j] == cues[1..][j - 1];
    }
  }

  /** `margin = int(frame_width * 0.1)`, `safe_width = frame_width - 2 * margin`. */
  function SafeWidth(frameWidth: nat): (w: int)
    ensures 4 * frameWidth <= 5 * w < 4 * frameWidth + 10
    ensures w <= frameWidth
  {
    frameWidth - 2 * (frameWidth / 10)
  }

  /** What a frame at `t` gets: nothing when no cue is active; otherwise the two
      lines, their anchors, the box and the drawn words; or the `IndexError` of
      `draw_background` when the active cue's lines are empty. */
  datatype Overlay =
    | Undecorated
    | Decorated(cue: nat, line1: string, line2: string, p1: Point, p2: Point, box: Background, words: seq<Placed>)
    | EmptyCueError(cue: nat)

  /** The overlay for one cue. */
  function CueOverlay(index: nat, c: Cue, frameWidth: nat, frameHeight: nat, tMs: nat,
                      width: string -> nat, height: string -> nat): Overlay
  {
    var p := Pack(SplitWords(c.text), SafeWidth(frameWidth), width);
    var line1, line2 := JoinSpace(p.first), JoinSpace(p.second);
    var pos := TextPositions(frameWidth, frameHeight, line1, line2, width, height);
    var box := BackgroundOf(SplitWords(line1), SplitWords(line2), tMs, pos.0, pos.1, width, height);
    if box.NoWord? then EmptyCueError(index)
    else Decorated(index, line1, line2, pos.0, pos.1, box,
                   Placements(SplitWords(line1), pos.0, width) + Placements(SplitWords(line2), pos.1, width))
  }

  /** The overlay `add_subtitles` draws at `t`. */
  function FrameOverlay(cues: seq<Cue>, frameWidth: nat, frameHeight: nat, tMs: nat,
                        width: string -> nat, height: string -> nat): Overlay
  {
    match FirstActive(cues, tMs)
    case None => Undecorated
    case Some(i) => CueOverlay(i, cues[i], frameWidth, frameHeight, tMs, width, height)
  }

  /** `add_subtitles(get_frame, t, subtitles)`: the loop over the cues that draws
      the first active one and stops. */
  method AddSubtitles(cues: seq<Cue>, frameWidth: nat, frameHeight: nat, tMs: nat,
                      width: string -> nat, height: string -> nat) returns (r: Overlay)
    ensures r == FrameOverlay(cues, frameWidth, frameHeight, tMs, width, height)
  {
    var safe := SafeWidth(frameWidth);
    var k := 0;
    while k < |cues|
      invariant 0 <= k <= |cues|
      invariant forall j :: 0 <= j < k ==> !Active(cues[j], tMs)
    {
      if cues[k].start <= tMs < cues[k].end {
        FirstActiveIsFirst(cues, tMs);
        FirstActiveAt(cues, tMs, k);
        var line1, line2 := SplitText(cues[k].text, safe, width);
        var pos := TextPositions(frameWidth, frameHeight, line1, line2, width, height);
        var box := DrawBackground(line1, line2, tMs, pos.0, pos.1, width, height);
        if box.NoWord? {
          return EmptyCueError(k);
        }
        var words := DrawRemainingText(line1, line2, pos.0, pos.1, width);
        return Decorated(k, line1, line2, pos.0, pos.1, box, words);
      }
      k := k + 1;
    }
    FirstActiveIsFirst(cues, tMs);
    r := Undecorated;
  }

  lemma FirstActiveAt(cues: seq<Cue>, tMs: nat, k: nat)
    requires k < |cues| && Active(cues[k], tMs)
    requires forall j :: 0 <= j < k ==> !Active(cues[j], tMs)
    ensures FirstActive(cues, tMs) == Some(k)
  {
    FirstActiveIsFirst(cues, tMs);
  }

  /** The overlay for one cue: drawing fails only when none of its words were
      placed; otherwise its lines fit the safe width and hold words of the cue's
      text, 50 px apart, with the box under one of the drawn words. */
  lemma CueOverlayMeaning(index: nat, c: Cue, frameWidth: nat, frameHeight: nat, tMs: nat,
                          width: string -> nat, height: string -> nat)
    ensures CueOverlay(index, c, frameWidth, frameHeight, tMs, width, height).EmptyCueError? ==>
              && Pack(SplitWords(c.text), SafeWidth(frameWidth), width).first == []
              && Pack(SplitWords(c.text), SafeWidth(frameWidth), width).second == []
    ensures !CueOverlay(index, c, frameWidth, frameHeight, tMs, width, height).Undecorated?
    ensures CueOverlay(index, c, frameWidth, frameHeight, tMs, width, height).cue == index
    ensures CueOverlay(index, c, frameWidth, frameHeight, tMs, width, height).Decorated? ==>
              var o := CueOverlay(index, c, frameWidth, frameHeight, tMs, width, height);
              && (o.line1 != [] ==> width(o.line1) <= SafeWidth(frameWidth))
              && (o.line2 != [] ==> width(o.line2) <= SafeWidth(frameWidth))
              && multiset(SplitWords(o.line1)) + multiset(SplitWords(o.line2)) <= multiset(SplitWords(c.text))
              && o.p2.y - o.p1.y == 50
              && o.box.Box?
              && (exists k :: 0 <= k < |o.words| && o.words[k] == Placed(o.box.word, o.box.at.x, o.box.at.y))
  {
    var p := Pack(SplitWords(c.text), SafeWidth(frameWidth), width);
    SplitTextLines(c.text, SafeWidth(frameWidth), width);
    var line1, line2 := JoinSpace(p.first), JoinSpace(p.second);
    var words1, words2 := SplitWords(line1), SplitWords(line2);
    var pos := TextPositions(frameWidth, frameHeight, line1, line2, width, height);
    HighlightOnDrawnWord(words1, words2, tMs, pos.0, pos.1, width, height);
    var box := BackgroundOf(words1, words2, tMs, pos.0, pos.1, width, height);
    if box.Box? {
      var k := HighlightIndex(tMs, |words1| + |words2|);
      var placed := Placements(words1, pos.0, width) + Placements(words2, pos.1, width);
      assert placed[k] == Placed(box.word, box.at.x, box.at.y);
    }
  }

  /** A frame goes undecorated exactly when no cue is active; otherwise it shows the
      first active cue. */
  lemma OverlayMeaning(cues: seq<Cue>, frameWidth: nat, frameHeight: nat, tMs: nat,
                       width: string -> nat, height: string -> nat)
    ensures FrameOverlay(cues, frameWidth, frameHeight, tMs, width, height).Undecorated?
            <==> forall j :: 0 <= j < |cues| ==> !Active(cues[j], tMs)
    ensures !FrameOverlay(cues, frameWidth, frameHeight, tMs, width, height).Undecorated? ==>
              var i := FrameOverlay(cues, frameWidth, frameHeight, tMs, width, height).cue;
              && i < |cues| && Active(cues[i], tMs)
              && (forall j :: 0 <= j < i ==> !Active(cues[j], tMs))
              && FrameOverlay(cues, frameWidth, frameHeight, tMs, width, height)
                 == CueOverlay(i, cues[i], frameWidth, frameHeight, tMs, width, height)
  {
    FirstActiveIsFirst(cues, tMs);
    if FirstActive(cues, tMs).Some? {
      var i := FirstActive(cues, tMs).value;
      CueOverlayMeaning(i, cues[i], frameWidth, frameHeight, tMs, width, height);
    }
  }
}

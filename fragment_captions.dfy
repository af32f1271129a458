/** The per-frame captions of a subtitled fragment in process-video-with-subtitles.py.
    Fragment `k` is `video_clip.subclip(k * 90, ...)`, so the frames it hands to
    `add_subtitles` are timed from the fragment's own start, while the cues are timed
    against the whole video. All times are milliseconds. */
module FragmentCaptions {
  import opened Captions
  import Reels

  /** As written (process-video-with-subtitles.py:196): the fragment's local time is
      compared with the cues unchanged. */
  function FragmentOverlayAsWritten(cues: seq<Cue>, k: nat, tMs: nat, frameWidth: nat, frameHeight: nat,
                                    width: string -> nat, height: string -> nat): Overlay
  {
    FrameOverlay(cues, frameWidth, frameHeight, tMs, width, height)
  }

  /** Corrected: the fragment's local time is shifted by the fragment's start before
      it is compared with the cues. */
  function FragmentOverlay(cues: seq<Cue>, k: nat, tMs: nat, frameWidth: nat, frameHeight: nat,
                           width: string -> nat, height: string -> nat): Overlay
  {
    FrameOverlay(cues, frameWidth, frameHeight, k * Reels.FRAGMENT_MS + tMs, width, height)
  }

  /** As written, every fragment replays the captions of the first one: a cue over
      the video's first second shows again at the start of fragment 1 (the video's
      90 s), where the whole video has no active cue. */
  lemma AsWrittenReplaysFirstFragment(frameWidth: nat, frameHeight: nat, width: string -> nat, height: string -> nat)
    ensures var cues := [Cue(0, 1000, "hola")];
            && !FragmentOverlayAsWritten(cues, 1, 0, frameWidth, frameHeight, width, height).Undecorated?
            && FrameOverlay(cues, frameWidth, frameHeight, Reels.FRAGMENT_MS, width, height).Undecorated?
  {
    var cues := [Cue(0, 1000, "hola")];
    OverlayMeaning(cues, frameWidth, frameHeight, 0, width, height);
    OverlayMeaning(cues, frameWidth, frameHeight, Reels.FRAGMENT_MS, width, height);
  }

  /** Corrected, a fragment's frame at local time `t` shows exactly what the whole
      video shows at `k * 90 s + t`: nothing when no cue is active then, otherwise the
      first cue active then. Two fragments therefore agree wherever their times in the
      video agree. */
  lemma FragmentOverlayFollowsVideo(cues: seq<Cue>, k: nat, tMs: nat, frameWidth: nat, frameHeight: nat,
                                    width: string -> nat, height: string -> nat)
    ensures var o := FragmentOverlay(cues, k, tMs, frameWidth, frameHeight, width, height);
            var at := k * Reels.FRAGMENT_MS + tMs;
            && (o.Undecorated? <==> forall j :: 0 <= j < |cues| ==> !Active(cues[j], at))
            && (!o.Undecorated? ==>
                  && o.cue < |cues| && Active(cues[o.cue], at)
                  && (forall j :: 0 <= j < o.cue ==> !Active(cues[j], at))
                  && o == CueOverlay(o.cue, cues[o.cue], frameWidth, frameHeight, at, width, height))
  {
    OverlayMeaning(cues, frameWidth, frameHeight, k * Reels.FRAGMENT_MS + tMs, width, height);
  }

  /** Corrected, fragment `k + 1` at local time `t` agrees with fragment `k` at
      `t + 90 s`: the captions continue from one fragment into the next. */
  lemma FragmentsContinue(cues: seq<Cue>, k: nat, tMs: nat, frameWidth: nat, frameHeight: nat,
                          width: string -> nat, height: string -> nat)
    ensures FragmentOverlay(cues, k + 1, tMs, frameWidth, frameHeight, width, height)
            == FragmentOverlay(cues, k, tMs + Reels.FRAGMENT_MS, frameWidth, frameHeight, width, height)
  {
    assert (k + 1) * Reels.FRAGMENT_MS + tMs == k * Reels.FRAGMENT_MS + (tMs + Reels.FRAGMENT_MS);
  }
}

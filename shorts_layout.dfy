/**
  Split-screen layout of the Shorts factory (`YouTube_Shorts_Factory/workflow.py`): a reaction
  video across the top 40% of the 1080x1920 canvas and the main video in the bottom 60%, each
  placed by `resize_and_position_video`.
*/
module ShortsLayout {

  import opened Wrappers
  import opened Media
  import opened Fit

  const CanvasWidth: nat := 1080
  const CanvasHeight: nat := 1920
  /** `int(CANVAS_HEIGHT * 0.40)`: the float product is exactly 768.0. */
  const ReactionHeight: nat := CanvasHeight * 40 / 100
  /** `int(CANVAS_HEIGHT * 0.60)`: the float product is exactly 1152.0. */
  const MainVideoHeight: nat := CanvasHeight * 60 / 100
  /** `MAX_VIDEO_DURATION`, the Shorts limit in seconds. */
  const MaxVideoDuration: real := 58.0
  /** `MUSIC_VOLUME = 0.30` as a percentage. */
  const MusicVolumePercent: nat := 30

  const Canvas := Rect(0, 0, CanvasWidth, CanvasHeight)
  const ReactionZone := Rect(0, 0, CanvasWidth, ReactionHeight)
  const MainZone := Rect(0, ReactionHeight, CanvasWidth, MainVideoHeight)

  /** Two rectangles share at least one pixel. */
  predicate Overlaps(a: Rect, b: Rect)
  {
    a.x < b.x + b.w && b.x < a.x + a.w && a.y < b.y + b.h && b.y < a.y + a.h
  }

  /** The reaction band is rows [0, 768), the main band rows [768, 1920): together they tile
      the canvas without sharing a pixel. */
  lemma ZonesTileCanvas()
    ensures ReactionHeight == 768 && MainVideoHeight == 1152
    ensures ReactionHeight + MainVideoHeight == CanvasHeight
    ensures Inside(ReactionZone, Canvas) && Inside(MainZone, Canvas)
    ensures !Overlaps(ReactionZone, MainZone)
    ensures ReactionZone.y == 0 && ReactionZone.y + ReactionZone.h == MainZone.y && MainZone.y + MainZone.h == CanvasHeight
  {
  }

  /** `resize_and_position_video(clip, tw, th, y, mode)`: the size the clip is scaled to and the
      position it is set to, or `None` when the `try` block raises and the clip comes back
      unchanged and unpositioned: a zero frame or target height (division by zero), a mode
      other than "contain" and "cover" (the new size is never bound), a zero-width frame in
      cover mode (division by its zero aspect ratio), or a new size with a zero side (the
      resize refuses it). */
  function ResizeAndPositionVideo(w: nat, h: nat, tw: nat, th: nat, y: int, mode: string): (r: Option<Placement>)
    ensures r.None? <==> || h == 0 || th == 0 || (mode != "contain" && mode != "cover")
                         || (mode == "contain" && ContainEmpty(w, h, tw, th))
                         || (mode == "cover" && (w == 0 || CoverEmpty(w, h, tw, th)))
    ensures r.Some? && mode == "contain" ==>
      var p := r.value;
      && 0 <= p.size.w <= tw && 0 <= p.size.h <= th
      && 0 <= p.x && p.x + p.size.w <= tw
      && y <= p.y && p.y + p.size.h <= y + th
      && (Wider(w, h, tw, th) ==> p.size.w == tw && p.size.h * w <= tw * h < (p.size.h + 1) * w)
      && (!Wider(w, h, tw, th) ==> p.size.h == th && p.size.w * h <= th * w < (p.size.w + 1) * h)
    ensures r.Some? && mode == "cover" ==>
      var p := r.value;
      && p.size.w >= tw && p.size.h >= th
      && p.x <= 0 && p.x + p.size.w >= tw
      && p.y <= y && p.y + p.size.h >= y + th
      && (Wider(w, h, tw, th) ==> p.size.h == th && p.size.w * h <= th * w < (p.size.w + 1) * h)
      && (!Wider(w, h, tw, th) ==> p.size.w == tw && p.size.h * w <= tw * h < (p.size.h + 1) * w)
    ensures r.Some? ==>
      && (tw - r.value.size.w - 2 * r.value.x == 0 || tw - r.value.size.w - 2 * r.value.x == 1)
      && (th - r.value.size.h - 2 * (r.value.y - y) == 0 || th - r.value.size.h - 2 * (r.value.y - y) == 1)
  {
    if h == 0 || th == 0 then None
    else if mode == "contain" then
      var s := ContainSize(w, h, tw, th);
      ContainFits(w, h, tw, th);
      ContainEmptySpec(w, h, tw, th);
      if s.w == 0 || s.h == 0 then None
      else
        CenterInside(tw, s.w);
        CenterInside(th, s.h);
        Some(Placement(s, Center(tw, s.w), y + Center(th, s.h)))
    else if mode == "cover" then
      if w == 0 then None
      else
        var s := CoverSize(w, h, tw, th);
        CoverFills(w, h, tw, th);
        CoverEmptySpec(w, h, tw, th);
        if s.w == 0 || s.h == 0 then None
        else
          CenterOverhang(tw, s.w);
          CenterOverhang(th, s.h);
          Some(Placement(s, Center(tw, s.w), y + Center(th, s.h)))
    else None
  }

  /** Where the clip ends up: the computed placement, or, when the call fell back, the clip at
      its own size at moviepy's default position (0, 0). */
  function Placed(w: nat, h: nat, tw: nat, th: nat, y: int, mode: string): (p: Placement)
    ensures ResizeAndPositionVideo(w, h, tw, th, y, mode).None? ==> p == Placement(Size(w, h), 0, 0)
    ensures ResizeAndPositionVideo(w, h, tw, th, y, mode).Some? ==> p == ResizeAndPositionVideo(w, h, tw, th, y, mode).value
  {
    match ResizeAndPositionVideo(w, h, tw, th, y, mode)
    case Some(p) => p
    case None => Placement(Size(w, h), 0, 0)
  }

  /** A main video with a frame to scale lands inside the bottom band; one so flat or so thin
      that a side of its contain size truncates to 0 stays unresized at the canvas's top-left
      corner. */
  lemma MainVideoInZone(w: nat, h: nat)
    requires h > 0
    ensures !ContainEmpty(w, h, CanvasWidth, MainVideoHeight) ==>
              Inside(RectOf(Placed(w, h, CanvasWidth, MainVideoHeight, ReactionHeight, "contain")), MainZone)
    ensures ContainEmpty(w, h, CanvasWidth, MainVideoHeight) <==> CanvasWidth * h < w || MainVideoHeight * w < h
    ensures ContainEmpty(w, h, CanvasWidth, MainVideoHeight) ==>
              Placed(w, h, CanvasWidth, MainVideoHeight, ReactionHeight, "contain") == Placement(Size(w, h), 0, 0)
  {
    if CanvasWidth * h < w {
      MulMonotone(1, MainVideoHeight, w);
      assert Wider(w, h, CanvasWidth, MainVideoHeight);
    }
    if MainVideoHeight * w < h {
      MulMonotone(1, CanvasWidth, h);
      assert !Wider(w, h, CanvasWidth, MainVideoHeight);
    }
  }

  /** The reaction is covered into the top band without a crop, so its scaled frame reaches
      below row 768 whenever it is at least two rows taller than the band, and then it shares
      pixels with the main band. */
  lemma ReactionOverhang(w: nat, h: nat)
    requires w > 0 && h > 0
    ensures ResizeAndPositionVideo(w, h, CanvasWidth, ReactionHeight, 0, "cover").Some?
    ensures var p := Placed(w, h, CanvasWidth, ReactionHeight, 0, "cover");
            Overlaps(RectOf(p), MainZone) <==> p.size.h >= ReactionHeight + 2
  {
    CoverEmptySpec(w, h, CanvasWidth, ReactionHeight);
    var p := Placed(w, h, CanvasWidth, ReactionHeight, 0, "cover");
    assert p.y + p.size.h == (ReactionHeight + p.size.h) / 2;
  }

  /** A portrait 1080x1920 reaction, the format the reactions folder asks for, is scaled to
      1080x1920 and set 576 rows above the canvas top, so it covers rows [768, 1344) of the
      main band; it is stacked above the main video, hiding the top half of it. */
  lemma ReactionOverlapsMainVideo()
    ensures Placed(1080, 1920, CanvasWidth, ReactionHeight, 0, "cover") == Placement(Size(1080, 1920), 0, -576)
    ensures Overlaps(RectOf(Placed(1080, 1920, CanvasWidth, ReactionHeight, 0, "cover")), MainZone)
  {
    assert !Wider(1080, 1920, 1080, 768);
  }

  /** `v` limited to `[lo, hi]`. */
  function Clamp(v: int, lo: int, hi: int): (r: int)
    requires lo <= hi
    ensures lo <= r <= hi && (lo <= v <= hi ==> r == v)
  {
    if v < lo then lo else if v > hi then hi else v
  }

  /** The part of `r` that shows through the window `zone` (empty sides have size 0). */
  function ClipToZone(r: Rect, zone: Rect): (c: Rect)
    requires zone.w >= 0 && zone.h >= 0
    ensures Inside(c, zone) && c.w >= 0 && c.h >= 0
    ensures Inside(zone, r) ==> c == zone
  {
    var x1 := Clamp(r.x, zone.x, zone.x + zone.w);
    var x2 := Clamp(r.x + r.w, x1, zone.x + zone.w);
    var y1 := Clamp(r.y, zone.y, zone.y + zone.h);
    var y2 := Clamp(r.y + r.h, y1, zone.y + zone.h);
    Rect(x1, y1, x2 - x1, y2 - y1)
  }

  /** What of the reaction is visible once it is cropped to its band, as the template bot does
      with its own cover-fitted background: the whole band for any frame that can be scaled,
      and never a pixel of the main band. */
  function VisibleReaction(w: nat, h: nat): (r: Rect)
    ensures Inside(r, ReactionZone) && !Overlaps(r, MainZone)
    ensures w > 0 && h > 0 ==> r == ReactionZone
  {
    ClipToZone(RectOf(Placed(w, h, CanvasWidth, ReactionHeight, 0, "cover")), ReactionZone)
  }
}

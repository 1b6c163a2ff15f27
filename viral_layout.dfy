/**
  Template-zone layout of `viral_video_bot.py`: the reaction template fills the 1080x1920
  canvas and the source video goes into the black zone at the bottom, as a darkened
  cover-and-crop background fill under a contain-fit foreground.
*/
module ViralLayout {

  import opened Wrappers
  import opened Media
  import opened Fit

  const CanvasWidth: nat := 1080
  const CanvasHeight: nat := 1920
  const ZoneY: nat := 850
  const ZoneHeight: nat := 1070
  const ZoneWidth: nat := 1080
  /** `MUSIC_VOLUME = 0.10` as a percentage. */
  const MusicVolumePercent: nat := 10
  /** The duration cap of `process_video`, in seconds. */
  const MaxDuration: real := 60.0

  const Canvas := Rect(0, 0, CanvasWidth, CanvasHeight)
  const Zone := Rect(0, ZoneY, ZoneWidth, ZoneHeight)

  /** The black zone spans the canvas width and ends exactly at the canvas bottom. */
  lemma ZoneInsideCanvas()
    ensures Inside(Zone, Canvas) && Zone.y + Zone.h == CanvasHeight && Zone.w == CanvasWidth
  {
  }

  /** `resize_to_fit_zone`: contain-fit the frame into the zone and centre it. A zero height
      (of the frame or the zone) raises inside the `try`, and so does a resize to a size with a
      zero side; the `except` returns the clip unresized with offsets (0, 0). */
  function ResizeToFitZone(w: nat, h: nat, zw: nat, zh: nat): (p: Placement)
    ensures h == 0 || zh == 0 || ContainEmpty(w, h, zw, zh) ==> p == Placement(Size(w, h), 0, 0)
    ensures h > 0 && zh > 0 && !ContainEmpty(w, h, zw, zh) ==>
      && 0 < p.size.w && 0 < p.size.h
      && 0 <= p.x && p.x + p.size.w <= zw
      && 0 <= p.y && p.y + p.size.h <= zh
      && (zw - p.size.w - 2 * p.x == 0 || zw - p.size.w - 2 * p.x == 1)
      && (zh - p.size.h - 2 * p.y == 0 || zh - p.size.h - 2 * p.y == 1)
      && (Wider(w, h, zw, zh) ==> p.size.w == zw && p.size.h * w <= zw * h < (p.size.h + 1) * w)
      && (!Wider(w, h, zw, zh) ==> p.size.h == zh && p.size.w * h <= zh * w < (p.size.w + 1) * h)
  {
    if h == 0 || zh == 0 then Placement(Size(w, h), 0, 0)
    else
      var s := ContainSize(w, h, zw, zh);
      ContainFits(w, h, zw, zh);
      ContainEmptySpec(w, h, zw, zh);
      if s.w == 0 || s.h == 0 then Placement(Size(w, h), 0, 0)
      else
        CenterInside(zw, s.w);
        CenterInside(zh, s.h);
        Placement(s, Center(zw, s.w), Center(zh, s.h))
  }

  /** A landscape 1920x1080 frame in a 1080x1200 zone: the width is the binding side and the
      height is the truncated 607.5, centred 296 pixels down. */
  lemma LandscapeInTallZone()
    ensures ResizeToFitZone(1920, 1080, 1080, 1200) == Placement(Size(1080, 607), 0, 296)
  {
  }

  /** The float `x` truncated toward zero, as Python's `int(x)`. */
  function Trunc(x: real): int
  {
    if x >= 0.0 then x.Floor else -((-x).Floor)
  }

  lemma HalfFloor(n: int)
    ensures (n as real / 2.0).Floor == n / 2
  {
    var q, m := n / 2, n % 2;
    assert n as real / 2.0 == q as real + m as real / 2.0;
  }

  /** The scaled background and the rectangle cropped out of it (in its own pixels). */
  datatype BackgroundFill = BackgroundFill(scaled: Size, crop: Rect)

  /** `crop(x1 = W/2 - zw/2, x2 = W/2 + zw/2, y1 = H/2 - zh/2, y2 = H/2 + zh/2)`, with the
      bounds truncated to pixels as the crop does. */
  function CenterCrop(s: Size, zw: nat, zh: nat): Rect
  {
    var x1 := Trunc(s.w as real / 2.0 - zw as real / 2.0);
    var x2 := Trunc(s.w as real / 2.0 + zw as real / 2.0);
    var y1 := Trunc(s.h as real / 2.0 - zh as real / 2.0);
    var y2 := Trunc(s.h as real / 2.0 + zh as real / 2.0);
    Rect(x1, y1, x2 - x1, y2 - y1)
  }

  /** When the frame is at least the zone's size, the centred crop is exactly the zone's size,
      lies inside the frame and splits the spare room evenly. */
  lemma CenterCropExact(s: Size, zw: nat, zh: nat)
    requires s.w >= zw && s.h >= zh
    ensures var c := CenterCrop(s, zw, zh);
      && c.w == zw && c.h == zh
      && c.x == (s.w - zw) / 2 && c.y == (s.h - zh) / 2
      && 0 <= c.x && c.x + c.w <= s.w && 0 <= c.y && c.y + c.h <= s.h
  {
    HalfFloor(s.w - zw);
    HalfFloor(s.w + zw);
    HalfFloor(s.h - zh);
    HalfFloor(s.h + zh);
    assert s.w as real / 2.0 - zw as real / 2.0 == (s.w - zw) as real / 2.0;
    assert s.w as real / 2.0 + zw as real / 2.0 == (s.w + zw) as real / 2.0;
    assert s.h as real / 2.0 - zh as real / 2.0 == (s.h - zh) as real / 2.0;
    assert s.h as real / 2.0 + zh as real / 2.0 == (s.h + zh) as real / 2.0;
    assert (s.w + zw) / 2 == (s.w - zw) / 2 + zw;
    assert (s.h + zh) / 2 == (s.h - zh) / 2 + zh;
  }

  /** The background-fill rule: resize to the zone height; if that leaves the frame narrower
      than the zone, resize to the zone width instead; then centre-crop to the zone. Resizing
      divides by the frame's height, and a resize to a size with a zero side raises; either
      makes the whole `process_video` fail. */
  function Background(w: nat, h: nat, zw: nat, zh: nat): (r: Option<BackgroundFill>)
    ensures r.None? <==> h == 0 || zh == 0 || w * zh < h || (w * zh < zw * h && h * zw < w)
    ensures r.Some? && zw * h <= w * zh ==> r.value.scaled == Size(w * zh / h, zh)
    ensures r.Some? && w * zh < zw * h ==> r.value.scaled == Size(zw, h * zw / w)
    ensures r.Some? ==>
      && r.value.scaled.w >= zw && r.value.scaled.h >= zh
      && r.value.crop.w == zw && r.value.crop.h == zh
      && r.value.crop.x == (r.value.scaled.w - zw) / 2 && r.value.crop.y == (r.value.scaled.h - zh) / 2
      && 0 <= r.value.crop.x && r.value.crop.x + zw <= r.value.scaled.w
      && 0 <= r.value.crop.y && r.value.crop.y + zh <= r.value.scaled.h
  {
    if h == 0 || zh == 0 then None
    else
      var byHeight := Size(w * zh / h, zh);
      FloorZero(w * zh, h);
      if byHeight.w == 0 then None
      else if byHeight.w < zw then
        assert w * zh < zw * h by {
          if w * zh >= zw * h { DivAtLeast(w * zh, zw, h); }
        }
        var byWidth := Size(zw, h * zw / w);
        FloorZero(h * zw, w);
        if byWidth.h == 0 then None
        else
          DivAtLeast(h * zw, zh, w);
          CenterCropExact(byWidth, zw, zh);
          Some(BackgroundFill(byWidth, CenterCrop(byWidth, zw, zh)))
      else
        assert zw * h <= w * zh by {
          if w * zh < zw * h { DivBelow(w * zh, zw, h); }
        }
        CenterCropExact(byHeight, zw, zh);
        Some(BackgroundFill(byHeight, CenterCrop(byHeight, zw, zh)))
  }

  /** The trim of `process_video`: one duration for both clips and the window of each. */
  datatype Trim = Trim(duration: Seconds, template: Window, source: Window)

  /** `min_duration = min(template, source, 60)`; a longer template is cut to its last
      `min_duration` seconds, otherwise to `[0, min_duration]`; the source to `[0, min_duration]`. */
  function TrimWindows(templateDuration: Seconds, sourceDuration: Seconds): (t: Trim)
    ensures t.duration <= MaxDuration && t.duration <= templateDuration && t.duration <= sourceDuration
    ensures t.duration == MaxDuration || t.duration == templateDuration || t.duration == sourceDuration
    ensures t.template == Window(templateDuration - t.duration, templateDuration)
    ensures t.source == Window(0.0, t.duration)
  {
    var d := Min3(templateDuration, sourceDuration, MaxDuration);
    var template := if templateDuration > d then Window(templateDuration - d, templateDuration) else Window(0.0, d);
    Trim(d, template, Window(0.0, d))
  }
}

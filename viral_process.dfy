/**
  `process_video` of `viral_video_bot.py` with the media work taken out: which windows are
  cut, where each layer of the composite lands on the canvas, and which audio tracks are mixed.
*/
module ViralProcess {

  import opened Wrappers
  import opened Media
  import opened Fit
  import opened ViralLayout

  /** What the template pipeline mixes: the template's own audio when it has some, the
      voice-over when its file is present, the music when its file is present, scaled to
      `MUSIC_VOLUME` and cut to the output duration; in that order, each at most once. */
  predicate TemplateMix(tracks: seq<Track>, templateHasAudio: bool, voiceover: Option<string>,
                        music: Option<string>, files: set<string>, duration: real)
  {
    && RankSorted(tracks)
    && (forall t | t in tracks ::
          || (t == TemplateAudio && templateHasAudio)
          || (t.Voiceover? && Present(voiceover, files) && t.path == voiceover.value)
          || (t.Music? && Present(music, files) && t == Music(music.value, MusicVolumePercent, duration)))
    && (templateHasAudio ==> TemplateAudio in tracks)
    && (Present(voiceover, files) ==> Voiceover(voiceover.value) in tracks)
    && (Present(music, files) ==> Music(music.value, MusicVolumePercent, duration) in tracks)
  }

  /** The audio list of `process_video`, grown by conditional appends. */
  method MixAudio(templateHasAudio: bool, voiceover: Option<string>, music: Option<string>,
                  files: set<string>, duration: real) returns (tracks: seq<Track>)
    ensures TemplateMix(tracks, templateHasAudio, voiceover, music, files, duration)
    ensures |tracks| <= 3
  {
    tracks := [];
    if templateHasAudio {
      tracks := tracks + [TemplateAudio];
    }
    if voiceover.Some? && voiceover.value != "" && voiceover.value in files {
      tracks := tracks + [Voiceover(voiceover.value)];
    }
    if music.Some? && music.value != "" && music.value in files {
      tracks := tracks + [Music(music.value, MusicVolumePercent, duration)];
    }
    ExpectedMix(templateHasAudio, voiceover, music, files, duration);
  }

  /** The mix the appends build. */
  function Expected(templateHasAudio: bool, voiceover: Option<string>, music: Option<string>,
                    files: set<string>, duration: real): seq<Track>
  {
    (if templateHasAudio then [TemplateAudio] else [])
      + (if Present(voiceover, files) then [Voiceover(voiceover.value)] else [])
      + (if Present(music, files) then [Music(music.value, MusicVolumePercent, duration)] else [])
  }

  lemma ExpectedMix(templateHasAudio: bool, voiceover: Option<string>, music: Option<string>,
                    files: set<string>, duration: real)
    ensures TemplateMix(Expected(templateHasAudio, voiceover, music, files, duration),
                        templateHasAudio, voiceover, music, files, duration)
  {
  }

  /** The composite `process_video` exports: the trim, the background fill, the layers
      bottom first (rectangles on the canvas), and the audio mix. */
  datatype TemplateVideo = TemplateVideo(
    trim: Trim, background: BackgroundFill, layers: seq<Layer>, audio: seq<Track>, withAudio: bool)

  /** `process_video` in template mode. It fails only when the background resize raises: a
      source frame of height 0, or one so thin that its width at the zone height truncates to
      0. A frame so flat that its contain height truncates to 0 does not fail: its foreground
      resize raises inside `resize_to_fit_zone`, which returns it unresized at the zone's
      top-left corner. Every other failure is I/O. */
  method ProcessVideo(template: ClipInfo, source: ClipInfo, music: Option<string>,
                      voiceover: Option<string>, files: set<string>) returns (r: Option<TemplateVideo>)
    ensures r.None? <==> source.h == 0 || source.w * ZoneHeight < source.h
    ensures r.Some? ==>
      && r.value.trim == TrimWindows(template.duration, source.duration)
      && Background(source.w, source.h, ZoneWidth, ZoneHeight) == Some(r.value.background)
      && |r.value.layers| == 3
      && r.value.layers[0] == Visual(TemplateLayer, Canvas)
      && r.value.layers[1] == Visual(BackgroundFillLayer, Zone)
      && r.value.layers[2].Visual? && r.value.layers[2].kind == ForegroundLayer
      && TemplateMix(r.value.audio, template.hasAudio, voiceover, music, files, r.value.trim.duration)
      && (r.value.withAudio <==> r.value.audio != [])
    ensures r.Some? ==>
      var fit := ResizeToFitZone(source.w, source.h, ZoneWidth, ZoneHeight);
      r.value.layers[2].rect == Rect(fit.x, ZoneY + fit.y, fit.size.w, fit.size.h)
    ensures r.Some? && !ContainEmpty(source.w, source.h, ZoneWidth, ZoneHeight) ==>
      Inside(r.value.layers[2].rect, Zone) && Inside(Zone, Canvas)
    ensures r.Some? && ContainEmpty(source.w, source.h, ZoneWidth, ZoneHeight) ==>
      r.value.layers[2].rect == Rect(0, ZoneY, source.w, source.h) && ZoneWidth * source.h < source.w
  {
    // 1. The template is resized to the canvas unless it already has its size.
    var templateSize := Size(template.w, template.h);
    if template.w != CanvasWidth || template.h != CanvasHeight {
      templateSize := Size(CanvasWidth, CanvasHeight);
    }
    // 2. One duration for both clips; the template keeps its end.
    var trim := TrimWindows(template.duration, source.duration);
    // 3A. Background fill: cover the zone, then centre-crop it to the zone.
    var background := Background(source.w, source.h, ZoneWidth, ZoneHeight);
    if source.h > 0 && source.h * ZoneWidth < source.w {
      MulMonotone(source.h * ZoneWidth, source.w, ZoneHeight);
      MulMonotone(1, source.h, ZoneWidth * ZoneHeight);
    }
    if background.None? {
      return None;
    }
    var fill := Rect(0, ZoneY, background.value.crop.w, background.value.crop.h);
    // 3B. Foreground: contain-fit into the zone, placed relative to the zone's top.
    var fit := ResizeToFitZone(source.w, source.h, ZoneWidth, ZoneHeight);
    var finalX := fit.x;
    var finalY := ZoneY + fit.y;
    var layers := [
      Visual(TemplateLayer, Rect(0, 0, templateSize.w, templateSize.h)),
      Visual(BackgroundFillLayer, fill),
      Visual(ForegroundLayer, Rect(finalX, finalY, fit.size.w, fit.size.h))
    ];
    // 5. Audio.
    var audio := MixAudio(template.hasAudio, voiceover, music, files, trim.duration);
    var withAudio := false;
    if audio != [] {
      withAudio := true;
    }
    ZoneInsideCanvas();
    r := Some(TemplateVideo(trim, background.value, layers, audio, withAudio));
  }

  /** The list of a mix fixes what goes in it: any track list that satisfies `TemplateMix`
      is the one `MixAudio` builds. */
  lemma TemplateMixUnique(a: seq<Track>, templateHasAudio: bool, voiceover: Option<string>,
                          music: Option<string>, files: set<string>, duration: real)
    requires TemplateMix(a, templateHasAudio, voiceover, music, files, duration)
    ensures a == Expected(templateHasAudio, voiceover, music, files, duration)
  {
    var e := Expected(templateHasAudio, voiceover, music, files, duration);
    ExpectedMix(templateHasAudio, voiceover, music, files, duration);
    assert forall t :: t in a <==> t in e;
    SortedByRankEqual(a, e);
  }
}

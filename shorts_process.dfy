/**
  `process_video` of the Shorts factory with the media work taken out: one duration for both
  clips, the two bands of the split screen, the optional caption, and the audio mix that keeps
  the original sound of both videos.
*/
module ShortsProcess {

  import opened Wrappers
  import opened Media
  import opened Fit
  import opened ShortsLayout

  /** `TEXT_PRESETS["hinglish"]`, the captions `process_video` draws from. */
  const HinglishCaptions: seq<string> := [
    "Wait karo yaar \U{1F525}",
    "Dekho kya hoga \U{1F440}",
    "Ekdum zabardast! \U{1F631}",
    "Full satisfying hai \U{1F31F}"
  ]

  /** What the split-screen pipeline mixes: the reaction's audio when it has some, the main
      video's audio when it has some, and the music when its file is present, at 30% gain and
      cut to the output duration; in that order, each at most once. */
  predicate SplitMix(tracks: seq<Track>, reactionHasAudio: bool, mainHasAudio: bool,
                     music: Option<string>, files: set<string>, duration: real)
  {
    && RankSorted(tracks)
    && (forall t | t in tracks ::
          || (t == ReactionAudio && reactionHasAudio)
          || (t == SourceAudio && mainHasAudio)
          || (t.Music? && Present(music, files) && t == Music(music.value, MusicVolumePercent, duration)))
    && (reactionHasAudio ==> ReactionAudio in tracks)
    && (mainHasAudio ==> SourceAudio in tracks)
    && (Present(music, files) ==> Music(music.value, MusicVolumePercent, duration) in tracks)
  }

  /** The mix the appends build. */
  function SplitExpected(reactionHasAudio: bool, mainHasAudio: bool, music: Option<string>,
                         files: set<string>, duration: real): seq<Track>
  {
    (if reactionHasAudio then [ReactionAudio] else [])
      + (if mainHasAudio then [SourceAudio] else [])
      + (if Present(music, files) then [Music(music.value, MusicVolumePercent, duration)] else [])
  }

  lemma SplitExpectedMix(reactionHasAudio: bool, mainHasAudio: bool, music: Option<string>,
                         files: set<string>, duration: real)
    ensures SplitMix(SplitExpected(reactionHasAudio, mainHasAudio, music, files, duration),
                     reactionHasAudio, mainHasAudio, music, files, duration)
  {
  }

  /** The audio list of `process_video`, grown by conditional appends. */
  method MixSplitAudio(reactionHasAudio: bool, mainHasAudio: bool, music: Option<string>,
                       files: set<string>, duration: real) returns (tracks: seq<Track>)
    ensures SplitMix(tracks, reactionHasAudio, mainHasAudio, music, files, duration)
    ensures |tracks| <= 3
  {
    tracks := [];
    if reactionHasAudio {
      tracks := tracks + [ReactionAudio];
    }
    if mainHasAudio {
      tracks := tracks + [SourceAudio];
    }
    if music.Some? && music.value != "" && music.value in files {
      tracks := tracks + [Music(music.value, MusicVolumePercent, duration)];
    }
    SplitExpectedMix(reactionHasAudio, mainHasAudio, music, files, duration);
  }

  /** Any list satisfying `SplitMix` is the one the appends build. */
  lemma SplitMixUnique(a: seq<Track>, reactionHasAudio: bool, mainHasAudio: bool,
                       music: Option<string>, files: set<string>, duration: real)
    requires SplitMix(a, reactionHasAudio, mainHasAudio, music, files, duration)
    ensures a == SplitExpected(reactionHasAudio, mainHasAudio, music, files, duration)
  {
    var e := SplitExpected(reactionHasAudio, mainHasAudio, music, files, duration);
    SplitExpectedMix(reactionHasAudio, mainHasAudio, music, files, duration);
    assert forall t :: t in a <==> t in e;
    SortedByRankEqual(a, e);
  }

  /** The composite `process_video` exports. The placements are where the two calls of
      `resize_and_position_video` put the clips; the layers are bottom first. */
  datatype SplitVideo = SplitVideo(
    duration: Seconds, main: Window, reaction: Window,
    mainPlacement: Placement, reactionPlacement: Placement,
    layers: seq<Layer>, audio: seq<Track>, withAudio: bool)

  /** `process_video` in split-screen mode. `caption` is the preset `random.choice` drew and
      `captionRendered` whether the text renderer produced a clip. The voice-over argument is
      accepted and never used, so it is not a parameter here. */
  method ProcessVideo(main: ClipInfo, reaction: ClipInfo, music: Option<string>, caption: string,
                      captionRendered: bool, files: set<string>) returns (v: SplitVideo)
    requires caption in HinglishCaptions
    ensures v.duration <= MaxVideoDuration && v.duration <= main.duration && v.duration <= reaction.duration
    ensures v.duration == main.duration || v.duration == reaction.duration || v.duration == MaxVideoDuration
    ensures v.main == Window(0.0, v.duration) && v.reaction == Window(0.0, v.duration)
    ensures v.reactionPlacement == Placed(reaction.w, reaction.h, CanvasWidth, ReactionHeight, 0, "cover")
    ensures v.mainPlacement == Placed(main.w, main.h, CanvasWidth, MainVideoHeight, ReactionHeight, "contain")
    ensures |v.layers| == if captionRendered then 4 else 3
    ensures v.layers[0] == Visual(BlackBackground, Canvas)
    ensures v.layers[1] == Visual(MainVideoLayer, RectOf(v.mainPlacement))
    ensures v.layers[2] == Visual(ReactionLayer, RectOf(v.reactionPlacement))
    ensures reaction.w > 0 && reaction.h > 0 ==>
              (Overlaps(v.layers[2].rect, MainZone) <==> v.reactionPlacement.size.h >= ReactionHeight + 2)
    ensures main.h > 0 && !ContainEmpty(main.w, main.h, CanvasWidth, MainVideoHeight) ==>
              Inside(v.layers[1].rect, MainZone)
    ensures captionRendered ==> v.layers[3] == Caption(caption)
    ensures SplitMix(v.audio, reaction.hasAudio, main.hasAudio, music, files, v.duration)
    ensures v.withAudio <==> v.audio != []
  {
    var duration := Min3(main.duration, reaction.duration, MaxVideoDuration);
    var mainWindow := Window(0.0, duration);
    var reactionWindow := Window(0.0, duration);
    var reactionPlacement := Placed(reaction.w, reaction.h, CanvasWidth, ReactionHeight, 0, "cover");
    var mainPlacement := Placed(main.w, main.h, CanvasWidth, MainVideoHeight, ReactionHeight, "contain");
    if main.h > 0 {
      MainVideoInZone(main.w, main.h);
    }
    if reaction.w > 0 && reaction.h > 0 {
      ReactionOverhang(reaction.w, reaction.h);
    }
    var layers := [
      Visual(BlackBackground, Canvas),
      Visual(MainVideoLayer, RectOf(mainPlacement)),
      Visual(ReactionLayer, RectOf(reactionPlacement))
    ];
    if captionRendered {
      layers := layers + [Caption(caption)];
    }
    var audio := MixSplitAudio(reaction.hasAudio, main.hasAudio, music, files, duration);
    var withAudio := audio != [];
    v := SplitVideo(duration, mainWindow, reactionWindow, mainPlacement, reactionPlacement,
                    layers, audio, withAudio);
  }

  /** The corrected stack: the same layers with the reaction cropped to its band, so that it
      never hides a pixel of the main video. */
  function CroppedLayers(v: SplitVideo, reaction: ClipInfo): (layers: seq<Layer>)
    requires |v.layers| >= 3
    ensures |layers| == |v.layers|
    ensures forall i | 0 <= i < |layers| && i != 2 :: layers[i] == v.layers[i]
    ensures layers[2].Visual? && layers[2].kind == ReactionLayer
    ensures Inside(layers[2].rect, ReactionZone) && !Overlaps(layers[2].rect, MainZone)
  {
    v.layers[2 := Visual(ReactionLayer, VisibleReaction(reaction.w, reaction.h))]
  }
}

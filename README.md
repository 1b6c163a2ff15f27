# Viral Shorts bots: layout, trim, audio and metadata core

The repository automates "reaction" YouTube Shorts. It has three parts:

- `viral_video_bot.py` (the template bot) puts a downloaded viral clip into the black zone of a
  1080x1920 reaction template. The clip goes in twice: as a darkened cover-and-crop background
  fill, and as a contain-fit foreground. The bot trims the template and the clip to a common
  duration, mixes the template audio, a voice-over and background music, and in auto mode
  builds the title, description and tags for the upload.
- `YouTube_Shorts_Factory/workflow.py` (the Shorts factory) builds a split screen. A reaction
  video is cover-fitted into the top 40% (768 rows) and the main video contain-fitted into the
  bottom 60% (1152 rows). The factory keeps both clips' own audio, adds music, writes a
  music-credits note per downloaded track, and picks the file yt-dlp actually wrote.
- `youtube_uploader.py` cleans a Reddit title into a Shorts title with an engagement hook,
  writes the SEO description, and builds the metadata body of the upload request.

The model lifts the integer and string logic out of the media, network and random calls:

- A clip is its width, height, duration and whether it has audio.
- The file system is the set of paths that exist.
- Each random choice is a parameter taken from its list.
- Each `try` that swallows an exception is an `Option` result, or the fall-back value the code
  returns.
- A resize raises when its height divides by zero or when the new size has a side of 0 pixels:
  moviepy renders the first resized frame at once, and its resizers refuse an empty side.

Aspect-ratio tests and scaled sizes are exact integers:

- `w/h > zw/zh` becomes `w*zh > zw*h`.
- `int(zw/(w/h))` becomes `zw*h/w`.

Python's `//` with a positive divisor is Dafny's `/`.

Files:

- `wrappers.dfy`: `Option`.
- `pystr.dfy`: the `str` built-ins the code uses.
- `pypath.dfy`: `os.path.splitext` and `join`.
- `media.dfy`: shared values and the contain/cover arithmetic (module `Fit`).
- `viral_layout.dfy`, `viral_process.dfy`, `viral_auto.dfy`: the template bot.
- `assets.dfy`: `get_random_file` of both programs.
- `shorts_layout.dfy`, `shorts_process.dfy`, `shorts_credits.dfy`: the Shorts factory.
- `uploader.dfy`: the uploader.

`resize_to_fit_zone` truncates `1080 / (1920/1080)` = 607.5 to 607
(`ViralLayout.LandscapeInTallZone`).

## Model

| member | source | states |
|---|---|---|
| PyStr.Take | youtube_uploader.py:101-103 | `s[:n]` is a prefix of `s` of length `min(len(s), n)` |
| PyStr.StripLeading | viral_video_bot.py:404 | the result is a suffix of `s`, does not start with white space, and only white space was cut |
| PyStr.StripTrailing | viral_video_bot.py:404 | the result is a prefix of `s`, does not end with white space, and only white space was cut |
| PyStr.Strip | youtube_uploader.py:159 | the stripped text neither starts nor ends with white space |
| PyStr.StripSpec | viral_video_bot.py:404 | `strip()` returns a slice `s[i:j]` with only white space outside it |
| PyStr.StripIdempotent | youtube_uploader.py:159 | stripping twice equals stripping once |
| PyStr.BeforeFirst | viral_video_bot.py:404 | `split('#')[0]` is a prefix without `#`, ended by the first `#` if there is one |
| PyStr.RemoveAll | youtube_uploader.py:159 | `replace(pat, "")` never lengthens the text and adds no character |
| PyStr.RemoveAllLength | youtube_uploader.py:159 | each deleted occurrence shortens the text by exactly `len(pat)` |
| PyStr.RemoveAllUnchanged | youtube_uploader.py:159 | with no occurrence of `pat`, `replace` returns the text unchanged |
| PyStr.Join | YouTube_Shorts_Factory/workflow.py:133 | joining no parts gives "", joining one part gives that part |
| PyStr.JoinContains | YouTube_Shorts_Factory/workflow.py:133 | every part occurs in the joined text |
| PyStr.Repeat | YouTube_Shorts_Factory/workflow.py:122 | `c * n` has length `n` and only the character `c` |
| PyStr.LowerAscii | viral_video_bot.py:110 | `lower()` maps a character to a lower-case letter only from itself, its capital, or the Kelvin sign to `k` |
| PyStr.LowerAsciiString | viral_video_bot.py:110 | the ASCII part of `lower()`: A–Z and the Kelvin sign lowered character by character, keeping the length |
| PyPath.LastIndex | viral_video_bot.py:110 | `rfind` gives the last index of the character, or -1 |
| PyPath.ExtStart | viral_video_bot.py:110 | the extension starts at a dot, and no `/` or `.` follows it |
| PyPath.SplitExt | viral_video_bot.py:110 | `splitext` gives a root and an extension that concatenate back to the path |
| PyPath.Join | viral_video_bot.py:117 | joining a folder without a trailing `/` and a bare name puts one `/` between them |
| Media.Min3 | viral_video_bot.py:199 | `min(a, b, c)` is at most each argument and equals one of them |
| Media.SortedByRankEqual | viral_video_bot.py:260-276 | two audio lists in append order that hold the same tracks are equal |
| Fit.ContainSize | viral_video_bot.py:158-165 | the contain size is never negative |
| Fit.CoverSize | YouTube_Shorts_Factory/workflow.py:227-233 | the cover size is never negative |
| Fit.ContainFits | viral_video_bot.py:158-165 | contain never exceeds the zone; a wider frame takes the zone width and height `floor(zw*h/w)`, otherwise (equal ratios too) the zone height and width `floor(zh*w/h)` |
| Fit.CoverFills | YouTube_Shorts_Factory/workflow.py:227-233 | cover never undershoots the zone; a wider frame takes the zone height and width `floor(th*w/h)`, otherwise the zone width and height `floor(tw*h/w)` |
| Fit.ContainEmptySpec | viral_video_bot.py:158-168 | the contain size has a zero side exactly when the frame is so flat (wider) or so thin (otherwise) that the truncated side is 0 |
| Fit.CoverEmptySpec | YouTube_Shorts_Factory/workflow.py:227-235 | the cover size has a zero side exactly in the mirrored case, which needs a zone of width 0 |
| Fit.CenterInside | viral_video_bot.py:170-171 | an offset `(zone - size) // 2` is non-negative, stays in the zone, and leaves at most one more pixel on the far side |
| Fit.CenterOverhang | YouTube_Shorts_Factory/workflow.py:236-237 | for a frame at least as large as the zone, the offset is non-positive and the frame overhangs both edges evenly up to one pixel |
| ViralLayout.ZoneInsideCanvas | viral_video_bot.py:32-42 | the black zone at y=850 with height 1070 spans the width and ends exactly at row 1920 |
| ViralLayout.ResizeToFitZone | viral_video_bot.py:151-175 | contain fit with positive sides and centred offsets inside the zone; a zero height, or a contain size with a zero side, returns the clip unresized at (0, 0) |
| ViralLayout.LandscapeInTallZone | viral_video_bot.py:158-171 | 1920x1080 in 1080x1200 becomes 1080x607 at offset (0, 296) |
| ViralLayout.HalfFloor | viral_video_bot.py:227-230 | `int` of a float half of an integer is that integer's floor half |
| ViralLayout.CenterCropExact | viral_video_bot.py:227-230 | cropping a frame at least zone-sized around its centre gives exactly zone size, inside the frame |
| ViralLayout.Background | viral_video_bot.py:222-230 | fails exactly on a zero height or when a resize would give a zero side; otherwise the frame is scaled to the zone height when that is wide enough, else to the zone width, and the crop is the zone size at offset `((W - zw) // 2, (H - zh) // 2)`, inside the scaled frame |
| ViralLayout.TrimWindows | viral_video_bot.py:199-208 | duration is `min(template, source, 60)`; the template keeps its last `duration` seconds; the source is cut to `[0, duration]` |
| ViralProcess.MixAudio | viral_video_bot.py:260-276 | template audio, voice-over, then music at 10%, each present exactly when its condition holds |
| ViralProcess.ExpectedMix | viral_video_bot.py:260-276 | the list the conditional appends build satisfies `ViralProcess.TemplateMix` |
| ViralProcess.TemplateMixUnique | viral_video_bot.py:260-276 | only one list satisfies `ViralProcess.TemplateMix` |
| ViralProcess.ProcessVideo | viral_video_bot.py:178-281 | fails exactly on a zero height or a frame whose width at height 1070 truncates to 0; template over the canvas, fill over the zone, foreground at `850 + y_off` and inside the zone unless its contain size has a zero side, when it stays unresized at (0, 850); audio set exactly when the mix is non-empty |
| Assets.Candidates | viral_video_bot.py:109-110 | the filter keeps exactly the listed names whose lower-cased extension is in the list |
| Assets.GetRandomFile | viral_video_bot.py:104-120 | `get_random_file` of the bot and, with the same branches, of YouTube_Shorts_Factory/workflow.py:263-270: a path for the asset that the pick selects, or `None`; its meaning is stated by `Assets.GetRandomFileSpec` and `Assets.EveryAssetPickable` |
| Assets.GetRandomFileSpec | viral_video_bot.py:104-120 | `None` exactly for a missing folder or no asset, otherwise the folder joined with a listed asset |
| Assets.EveryAssetPickable | viral_video_bot.py:116-117 | every asset can be returned by some random pick |
| Assets.ModSmall | viral_video_bot.py:116 | a pick below the number of assets selects itself |
| Assets.PickedFile | viral_video_bot.py:116-117 | a pick selects the asset at its position modulo the number of assets |
| Assets.IndexOf | viral_video_bot.py:116 | a listed asset has a position in the list |
| Assets.DefaultsDifferInM4a | YouTube_Shorts_Factory/workflow.py:263 | the two default extension lists differ in exactly `.m4a` |
| ViralAuto.CleanSourceTitle | viral_video_bot.py:404 | the clean title has at most 50 characters, no `#`, and no leading white space |
| ViralAuto.CleanSourceTitleSpec | viral_video_bot.py:404 | the clean title is a piece of the source before its first `#`, after leading white space only |
| ViralAuto.PieceOfPrefix | viral_video_bot.py:404 | a prefix of a slice of a prefix is found in the source at the slice's start |
| ViralAuto.HookFacts | viral_video_bot.py:405 | the hooks are at most 12 characters and have no `#` |
| ViralAuto.NoHashAppend | viral_video_bot.py:406 | joining two texts without `#` gives a text without `#` |
| ViralAuto.TitleTailFacts | viral_video_bot.py:406 | the title tail " 😲 #shorts" has ten characters and no `#` among its first three |
| ViralAuto.AutoTitle | viral_video_bot.py:406 | the f-string title built from the clean title and the hook; its shape and bounds are stated by `ViralAuto.AutoTitleSpec` and `ViralAuto.AutoTitleBounds` |
| ViralAuto.AutoTitleSpec | viral_video_bot.py:404-406 | the title opens with the clean title, " - " and the hook, ends with " 😲 #shorts", and has at most 63 characters besides the hook |
| ViralAuto.AutoTitleBounds | viral_video_bot.py:405-406 | with a hook from the list, the title has at most 75 characters and no `#` before the closing `#shorts` |
| ViralAuto.TitleShape | viral_video_bot.py:406 | any clean title, hook and tail assemble into a title that opens with the first two and ends with the tail; without `#` in the first parts, none comes before the tail's own |
| ViralAuto.TailShape | viral_video_bot.py:406 | a text without `#` followed by the title tail has no `#` before the tail's own |
| ViralAuto.Hashtag | viral_video_bot.py:413 | `'#' + t.replace(' ', '')` starts with `#` and has no space |
| ViralAuto.NoSpaceLeft | viral_video_bot.py:413 | removing spaces leaves none |
| ViralAuto.Hashtags | viral_video_bot.py:413 | one hashtag per tag, in order |
| ViralAuto.FirstTags | viral_video_bot.py:413 | `tags[:n]` is a prefix of at most `n` tags |
| ViralAuto.AutoDescription | viral_video_bot.py:409-414 | the four-paragraph description; where the commentary, the title and each hashtag sit is stated by `ViralAuto.AutoDescriptionOpens` and `ViralAuto.AutoDescriptionHashtags` |
| ViralAuto.AutoDescriptionOpens | viral_video_bot.py:409-414 | the description opens with the commentary and then names the clean title |
| ViralAuto.AutoDescriptionHashtags | viral_video_bot.py:413 | each of the first five source tags appears in the description as a hashtag without spaces |
| ViralAuto.HashtagAfter | viral_video_bot.py:413-414 | every tag's hashtag occurs in a text that ends with the space-joined hashtags |
| ViralAuto.Dedup | viral_video_bot.py:418 | `list(set(...))` has no duplicates and the same members |
| ViralAuto.DedupExtends | viral_video_bot.py:418 | deduplicating a longer list extends the result |
| ViralAuto.DedupDistinct | viral_video_bot.py:418 | a list without duplicates is unchanged |
| ViralAuto.AutoTags | viral_video_bot.py:417-418 | the base tags and the first ten source tags with duplicates dropped; its contents and size are stated by `ViralAuto.AutoTagsSpec` |
| ViralAuto.AutoTagsSpec | viral_video_bot.py:417-418 | the tags have no duplicates, hold all six base tags and every one of the first ten source tags, and nothing else: 6 to 16 tags |
| ShortsLayout.ZonesTileCanvas | YouTube_Shorts_Factory/workflow.py:45-48 | the reaction band [0, 768) and the main band [768, 1920) tile the canvas without overlap |
| ShortsLayout.ResizeAndPositionVideo | YouTube_Shorts_Factory/workflow.py:215-241 | contain bounds and cover bounds with their floor sizes, the centring, and the final position `(x, y_position + y_offset)`; `None` exactly on a zero height, an unknown mode, a zero-width frame in cover mode, or a new size with a zero side |
| ShortsLayout.Placed | YouTube_Shorts_Factory/workflow.py:215-241 | a clip whose resize raised stays at its own size at (0, 0) |
| ShortsLayout.MainVideoInZone | YouTube_Shorts_Factory/workflow.py:286 | a main video lands inside the bottom band, unless it is so flat (wider than 1080:1) or so thin (narrower than 1:1152) that a side truncates to 0; then it stays unresized at (0, 0) |
| ShortsLayout.ReactionOverhang | YouTube_Shorts_Factory/workflow.py:285 | any reaction frame with both sides positive is cover-fitted, and it overlaps the main band exactly when its scaled height is at least 770 |
| ShortsLayout.ReactionOverlapsMainVideo | YouTube_Shorts_Factory/workflow.py:285-293 | a 1080x1920 reaction is placed at y = -576 with height 1920 and covers part of the main band |
| ShortsLayout.Clamp | YouTube_Shorts_Factory/workflow.py:285 | clamping keeps a value in range and leaves in-range values alone |
| ShortsLayout.ClipToZone | YouTube_Shorts_Factory/workflow.py:285 | the visible part of a rectangle lies in the window, and is the whole window when the rectangle covers it |
| ShortsLayout.VisibleReaction | YouTube_Shorts_Factory/workflow.py:285 | in the corrected layout, the reaction cropped to its band fills the band and never touches the main band |
| ShortsProcess.SplitExpectedMix | YouTube_Shorts_Factory/workflow.py:299-314 | the list the conditional appends build satisfies `ShortsProcess.SplitMix` |
| ShortsProcess.MixSplitAudio | YouTube_Shorts_Factory/workflow.py:299-314 | reaction audio, main audio, then music at 30%, each present exactly when its condition holds |
| ShortsProcess.SplitMixUnique | YouTube_Shorts_Factory/workflow.py:299-314 | only one list satisfies `ShortsProcess.SplitMix` |
| ShortsProcess.ProcessVideo | YouTube_Shorts_Factory/workflow.py:272-314 | duration is `min(main, reaction, 58)` and both clips are cut to `[0, duration]`; the placements come from the two fit calls; layers are black background, main video (inside its band when it can be scaled), the uncropped cover-fitted reaction, which overlaps the main band exactly when its scaled height is at least 770, then the caption when rendered; audio set exactly when the mix is non-empty |
| ShortsProcess.CroppedLayers | YouTube_Shorts_Factory/workflow.py:285-293 | the corrected stack keeps every layer but the reaction, which is cropped to its band and never touches the main band |
| ShortsCredits.CreditsHeader | YouTube_Shorts_Factory/workflow.py:121-122 | the note's header; its two lines are stated by `ShortsCredits.HeaderRule` |
| ShortsCredits.AllMatches | YouTube_Shorts_Factory/workflow.py:128-134 | the matches of the patterns, pattern by pattern, as the loop of `ShortsCredits.ExtractCredits` collects them; that each one reaches the note is `ShortsCredits.CreditsListMatches` |
| ShortsCredits.CreditsBody | YouTube_Shorts_Factory/workflow.py:132-135 | the matches one per line, or the description's first 500 characters and "..."; stated by `ShortsCredits.CreditsListMatches` and `ShortsCredits.CreditsFallback` |
| ShortsCredits.ExtractCredits | YouTube_Shorts_Factory/workflow.py:120-139 | the note is the header, every match of the eight patterns in order (or the first 500 characters of the description and "..."), then the footer |
| ShortsCredits.CreditsListMatches | YouTube_Shorts_Factory/workflow.py:128-134 | every match appears in the note |
| ShortsCredits.CreditsFallback | YouTube_Shorts_Factory/workflow.py:135-136 | with no match, the note quotes at most 500 characters of the description and "..." right after the header |
| ShortsCredits.CreditsFrame | YouTube_Shorts_Factory/workflow.py:121-122 | the note always opens with the header and ends with the warning footer |
| ShortsCredits.HeaderRule | YouTube_Shorts_Factory/workflow.py:121-122 | the header's first line names the track, followed by a line of 60 `=` |
| ShortsCredits.KeepWordChars | YouTube_Shorts_Factory/workflow.py:178 | only word characters, white space and `-` from the title survive, and the result is no longer than the title |
| ShortsCredits.KeepOne | YouTube_Shorts_Factory/workflow.py:178 | a single character is kept exactly when it is a word character, white space or `-` |
| ShortsCredits.KeepAppend | YouTube_Shorts_Factory/workflow.py:178 | filtering a concatenation filters each part, so every allowed character survives, in order |
| ShortsCredits.SafeFilename | YouTube_Shorts_Factory/workflow.py:178 | the file stem has at most 50 characters and no `/` or `.` |
| ShortsCredits.KeepAllKept | YouTube_Shorts_Factory/workflow.py:178 | a text of kept characters passes the filter unchanged |
| ShortsCredits.SafeFilenameIdempotent | YouTube_Shorts_Factory/workflow.py:178 | sanitising a sanitised name changes nothing |
| ShortsCredits.CreditsFile | YouTube_Shorts_Factory/workflow.py:175-179 | whatever the title, the credits file lands directly in `./credits` |
| ShortsCredits.DownloadCandidates | YouTube_Shorts_Factory/workflow.py:193-200 | the paths `download_video` checks in order: the requested one, then its root with `.mp4`, `.mkv`, `.webm`; the order's consequence is stated by `ShortsCredits.DownloadVideoSpec` |
| ShortsCredits.FirstIn | YouTube_Shorts_Factory/workflow.py:193-201 | an existing candidate with no existing candidate before it, or `None` exactly when none exists |
| ShortsCredits.DownloadVideo | YouTube_Shorts_Factory/workflow.py:193-201 | the loop returns the first existing path among the requested one and its root with `.mp4`, `.mkv`, `.webm` |
| ShortsCredits.DownloadVideoSpec | YouTube_Shorts_Factory/workflow.py:193-201 | the requested path wins when it exists; a fallback is returned only when the requested path and all earlier fallbacks are missing |
| Uploader.CloseIndex | youtube_uploader.py:154 | the lazy `.*?` stops at the first closing bracket, and only if no line break comes before it |
| Uploader.RemoveSpans | youtube_uploader.py:154-155 | span removal never lengthens the title |
| Uploader.RemoveSpansKeeps | youtube_uploader.py:154-155 | text before the first opening bracket survives span removal untouched |
| Uploader.CloseIndexAt | youtube_uploader.py:154 | the lazy `.*?` stops at the first closing bracket of a line |
| Uploader.RemoveSpansDrops | youtube_uploader.py:154-155 | a span closed on its own line is deleted whole and removal continues after it |
| Uploader.SpanFreeCons | youtube_uploader.py:154 | adding a character that opens no span keeps a text span-free |
| Uploader.SpanFreeSuffix | youtube_uploader.py:154 | suffixes of a span-free text are span-free |
| Uploader.SpanPiece | youtube_uploader.py:154 | a removed span contains no line break |
| Uploader.SkipPiece | youtube_uploader.py:154 | dropping a prefix without a line break keeps every closer after a line break |
| Uploader.KeptOpenStaysOpen | youtube_uploader.py:154-155 | removing spans cannot close a bracket that had no closer on its line |
| Uploader.RemoveSpansSpanFree | youtube_uploader.py:154-155 | after `re.sub(r'\[.*?\]', '')` no complete span is left |
| Uploader.SpanFreeFixpoint | youtube_uploader.py:154-155 | a text without spans is unchanged |
| Uploader.RemoveSpansIdempotent | youtube_uploader.py:154-155 | removing spans twice equals removing them once |
| Uploader.SpanFreeKept | youtube_uploader.py:154-155 | removing `(...)` spans brings back no `[...]` span |
| Uploader.SpansGone | youtube_uploader.py:154-155 | after both substitutions neither kind of span remains |
| Uploader.ExtensionDot | youtube_uploader.py:157 | every extension match starts with a dot |
| Uploader.RemoveExtensionsUnchanged | youtube_uploader.py:157 | a title with no match is left unchanged |
| Uploader.RemoveExtensionsKeeps | youtube_uploader.py:157 | text before the first dot survives extension removal untouched |
| Uploader.RemoveExtensionsDrops | youtube_uploader.py:157 | a match at the front is deleted whole and removal continues after it |
| Uploader.RemoveExtensions | youtube_uploader.py:157 | extension removal never lengthens the title and deletes a multiple of four characters |
| Uploader.ExtensionExample | youtube_uploader.py:157 | the match ignores case: `.MKV` is removed |
| Uploader.CleanTitle | youtube_uploader.py:152-159 | the cleaned title is no longer than the original and does not start or end with white space |
| Uploader.CleanTitlePlain | youtube_uploader.py:152-159 | a title with no bracket, no dot and neither banned word is only stripped |
| Uploader.CleanTitleDropsSpan | youtube_uploader.py:152-159 | a `[...]` span closed on its line is cut out, and only it: cleaning with the span gives what cleaning without it gives |
| Uploader.ShortenTitle | youtube_uploader.py:164-165 | at most 65 characters; a longer title keeps its first 62 and gains "..." |
| Uploader.TitleWithHook | youtube_uploader.py:183-190 | the title always ends with " #Shorts" and starts with the clean title; at most 100 characters for a clean title of at most 65 |
| Uploader.HookLength | youtube_uploader.py:168-176 | no hook is longer than 17 characters |
| Uploader.GenerateTitle | youtube_uploader.py:147-190 | the title never exceeds 100 characters and starts with the shortened clean title |
| Uploader.HookAlwaysKept | youtube_uploader.py:162-190 | for a listed hook the title is "clean - hook #Shorts" of at most 93 characters, so the fallback is never taken |
| Uploader.CreditLine | youtube_uploader.py:200-201 | the credit line is written exactly for a given, non-empty subreddit |
| Uploader.Describe | youtube_uploader.py:192-214 | the description laid out with given fixed blocks, so that its lemmas hold for any wording of them; stated by `Uploader.DescriptionFrame` and `Uploader.DescriptionCredit` |
| Uploader.GenerateDescription | youtube_uploader.py:192-214 | `generate_description`: the layout with the uploader's own promotion, keyword block and disclaimer; stated by `Uploader.DescriptionFrame` and `Uploader.DescriptionCredit` |
| Uploader.DescriptionFrame | youtube_uploader.py:192-214 | the description starts with the title and a blank line and ends with the fair-use disclaimer |
| Uploader.DescriptionCredit | youtube_uploader.py:192-214 | a subreddit only adds "Credit/Source: r/{subreddit}" and a blank line after the promotional block; without one the text is unchanged |
| Uploader.TakeTags | youtube_uploader.py:103 | `tags[:500]` is a prefix of at most 500 tags |
| Uploader.BuildUploadBody | youtube_uploader.py:86-110 | no request when not authenticated; otherwise the title is `title[:100]`, the description `description[:5000]` and the tags `tags[:500]` (prefixes of exactly `min(len, limit)`), the four default tags when none are given, public and not made for kids |
| Uploader.GeneratedTitleUploadsWhole | youtube_uploader.py:101 | a generated title is never cut by the upload |
| Uploader.AutoMetadataUploadsWhole | viral_video_bot.py:404-421 | the template bot's auto title and tags would be uploaded uncut |

## Left out

- Media processing is not modelled: decoding, resampling, `mirror_x`, `colorx`, compositing, `write_videofile`. A clip is its size, duration and an audio flag. The 0.3 darkening is not modelled. The music gains 0.10 and 0.30 are kept as the percentages 10 and 30.
- Float rounding is abstracted. The model uses exact integer and real arithmetic, where Python divides floats (`w / h`, then `int(...)`). Aspect ratios that differ only in the last float bit may take the other branch in the source.
- The template resize in `process_video` is not modelled in detail. It is kept only as the template layer covering the canvas.
- yt-dlp, `edge-tts` voice-overs, the Google OAuth and pickle handling, and the resumable `next_chunk` upload loop are not modelled. They are calls into code that is not part of this model. `upload_video` is modelled up to the request body.
- The template bot's `download_video` is a subprocess call with no logic of its own, so it is not modelled.
- `re.findall` in `extract_credits` is a parameter `findAll(pattern, description)`. The model keeps the pattern order, the concatenation of matches and the note's structure.
- ShortsCredits.KeepWordChars: `\w` is approximated by ASCII letters, digits and `_`. Python's `\w` also keeps non-ASCII letters and digits.
- `random.choice` (hooks, commentaries, captions, assets) is a parameter. A drawn hook or caption is required to come from its list only where a property depends on it: the hook facts and title bounds (`ViralAuto.HookFacts`, `ViralAuto.AutoTitleBounds`, `Uploader.HookLength`, `Uploader.HookAlwaysKept`, `Uploader.AutoMetadataUploadsWhole`) and the caption in `ShortsProcess.ProcessVideo`. The commentary (viral_video_bot.py:382) is left unconstrained, so the description lemmas hold for any commentary.
- The module-level `upload_video` is not modelled. `viral_video_bot.py:20` and `YouTube_Shorts_Factory/workflow.py:31` import it, but `youtube_uploader.py` only defines the method `YouTubeUploader.upload_video`, so in the source these imports fail. `Uploader.AutoMetadataUploadsWhole` relates the bot's metadata to the method's body as if the call were wired up.
- ShortsProcess.ProcessVideo: the voice-over argument of the factory's `process_video` is accepted and never used, so it is not a parameter.
- ShortsProcess.ProcessVideo: the caption's size and position come from the text renderer, so only its text is kept.
- Folder and README creation, `argparse` and `input()` menus, `batch_process`, `auto_mode`'s download loop, `run_batch.py`, `dump_token.py` and the `test_*.py` network probes are not modelled. They are drivers around the calls above.
- Uploader.RemoveExtensions: its own contract states only the length facts; what is deleted and what is kept is stated by `RemoveExtensionsUnchanged`, `RemoveExtensionsKeeps` and `RemoveExtensionsDrops`. Nothing states that no extension is left, because removal can join a new one, as in `.mp.mp44`.
- LowerAsciiString: models `str.lower()` only on A–Z and the Kelvin sign, character by character, keeping the length. Python also lowers other non-ASCII capitals, and some of them (U+0130) to two characters. Whether a name's extension is in one of the ASCII extension lists is the same either way.
- ViralAuto.Dedup: `list(set(...))` has an order Python leaves unspecified. The model fixes one order, first occurrence; only the members and the absence of duplicates are promised.
- ViralLayout.ResizeToFitZone, ViralLayout.Background, ShortsLayout.ResizeAndPositionVideo: that a resize to a size with a zero side raises is taken from moviepy's behaviour, which is not part of this model.

## Findings

| source | as written | input that shows it | evidently intended | confidence | as-written member | corrected member |
|---|---|---|---|---|---|---|
| YouTube_Shorts_Factory/workflow.py:285, 293 | The reaction is cover-fitted into the 768-row top band but never cropped. It is stacked above the main video. | A portrait 1080x1920 reaction, the format the reactions folder asks for (workflow.py:99). It is scaled to 1080x1920 at y = -576, so it covers rows [768, 1344) of the main band. | The reaction is cropped to its band, as the template bot crops its cover-fitted background fill; the main video stays fully visible | not executed | ShortsLayout.ReactionOverlapsMainVideo | ShortsProcess.CroppedLayers |

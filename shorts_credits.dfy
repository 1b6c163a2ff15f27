/**
  Text and file-name logic around downloads in the Shorts factory: the music-credits note of
  `SafeMusicDownloader.extract_credits`, the file name `save_credits` writes it to, and the
  extension fallback of `download_video`.
*/
module ShortsCredits {

  import opened Wrappers
  import opened PyStr
  import PyPath

  /** The eight patterns `extract_credits` searches for, in order. */
  const CreditPatterns: seq<string> := [
    "Music provided by.*", "Track:.*", "Artist:.*", "Download.*",
    "Stream.*", "License.*", "Creative Commons.*", "Attribution.*"
  ]

  const Rule: string := Repeat('=', 60)

  /** "🎵 MUSIC CREDITS FOR: {title}" and a rule of 60 '='. */
  function CreditsHeader(title: string): string
  {
    "\U{1F3B5} MUSIC CREDITS FOR: " + title + "\n" + Rule + "\n\n"
  }

  const CreditsFooter: string :=
    "\n\n" + Rule + "\n\U{26A0}\U{FE0F} Copy above text to your YouTube video description!\n"

  /** All matches of the patterns, pattern by pattern. `findAll(p, d)` stands for
      `re.findall(p, d, re.IGNORECASE | re.MULTILINE)`. */
  function AllMatches(patterns: seq<string>, description: string,
                      findAll: (string, string) -> seq<string>): seq<string>
  {
    if patterns == [] then []
    else AllMatches(patterns[..|patterns| - 1], description, findAll)
           + findAll(patterns[|patterns| - 1], description)
  }

  /** The note's body: the matches one per line, or, with none, the first 500 characters of
      the description followed by "...". */
  function CreditsBody(found: seq<string>, description: string): string
  {
    if found != [] then Join(found, "\n") else Take(description, 500) + "..."
  }

  /** `extract_credits`: the loop over the patterns collects every match. */
  method ExtractCredits(description: string, title: string,
                        findAll: (string, string) -> seq<string>) returns (credits: string)
    ensures credits == CreditsHeader(title)
                       + CreditsBody(AllMatches(CreditPatterns, description, findAll), description)
                       + CreditsFooter
  {
    credits := CreditsHeader(title);
    var found: seq<string> := [];
    for i := 0 to |CreditPatterns|
      invariant found == AllMatches(CreditPatterns[..i], description, findAll)
    {
      assert CreditPatterns[..i + 1][..i] == CreditPatterns[..i];
      found := found + findAll(CreditPatterns[i], description);
    }
    assert CreditPatterns[..|CreditPatterns|] == CreditPatterns;
    if found != [] {
      credits := credits + Join(found, "\n");
    } else {
      credits := credits + Take(description, 500) + "...";
    }
    credits := credits + CreditsFooter;
  }

  /** Every match of every pattern is listed in the note, at `at`. */
  lemma CreditsListMatches(description: string, title: string,
                           findAll: (string, string) -> seq<string>, k: nat) returns (at: nat)
    requires k < |AllMatches(CreditPatterns, description, findAll)|
    ensures OccursAt(AllMatches(CreditPatterns, description, findAll)[k],
                     CreditsHeader(title) + CreditsBody(AllMatches(CreditPatterns, description, findAll), description)
                       + CreditsFooter, at)
  {
    var found := AllMatches(CreditPatterns, description, findAll);
    var body := Join(found, "\n");
    var i := JoinContains(found, "\n", k);
    OccursAfter(found[k], CreditsHeader(title), body, i);
    at := |CreditsHeader(title)| + i;
    OccursBefore(found[k], CreditsHeader(title) + body, CreditsFooter, at);
  }

  /** With no match, the note quotes the description's first 500 characters and "...". */
  lemma CreditsFallback(description: string, title: string, findAll: (string, string) -> seq<string>)
    requires AllMatches(CreditPatterns, description, findAll) == []
    ensures OccursAt(Take(description, 500) + "...",
                     CreditsHeader(title) + CreditsBody(AllMatches(CreditPatterns, description, findAll), description)
                       + CreditsFooter, |CreditsHeader(title)|)
    ensures |Take(description, 500)| <= 500 && Take(description, 500) <= description
  {
    var quote := Take(description, 500) + "...";
    PieceAt(CreditsHeader(title), quote, quote);
    OccursBefore(quote, CreditsHeader(title) + quote, CreditsFooter, |CreditsHeader(title)|);
  }

  /** The note always opens with the header and closes with the footer. */
  lemma CreditsFrame(title: string, body: string)
    ensures CreditsHeader(title) <= CreditsHeader(title) + body + CreditsFooter
    ensures OccursAt(CreditsFooter, CreditsHeader(title) + body + CreditsFooter,
                     |CreditsHeader(title) + body|)
  {
    PieceAt(CreditsHeader(title) + body, CreditsFooter, CreditsFooter);
  }

  /** The header's first line names the track; the rule of 60 '=' follows on its own line. */
  lemma HeaderRule(title: string)
    ensures "\U{1F3B5} MUSIC CREDITS FOR: " + title + "\n" <= CreditsHeader(title)
    ensures OccursAt(Rule + "\n", CreditsHeader(title), |title| + 22)
    ensures |Rule| == 60 && forall i | 0 <= i < 60 :: Rule[i] == '='
  {
    var lead := "\U{1F3B5} MUSIC CREDITS FOR: " + title + "\n";
    assert CreditsHeader(title) == lead + (Rule + "\n" + "\n");
    PieceAt(lead, Rule + "\n" + "\n", Rule + "\n");
  }

  /** What survives `re.sub(r'[^\w\s-]', '', title)`: word characters (letters, digits and
      `_`, ASCII only here), white space and `-`. */
  predicate Kept(c: char)
  {
    ('a' <= c <= 'z') || ('A' <= c <= 'Z') || ('0' <= c <= '9') || c == '_' || IsSpace(c) || c == '-'
  }

  /** The characters of `s` that `Kept` keeps, in order. */
  function KeepWordChars(s: string): (r: string)
    ensures |r| <= |s|
    ensures forall i | 0 <= i < |r| :: Kept(r[i]) && r[i] in s
  {
    if s == [] then []
    else if Kept(s[0]) then [s[0]] + KeepWordChars(s[1..])
    else KeepWordChars(s[1..])
  }

  /** The credits file name stem of `save_credits`: at most 50 characters, none of them a path
      separator or a dot. */
  function SafeFilename(title: string): (r: string)
    ensures |r| <= 50
    ensures forall i | 0 <= i < |r| :: Kept(r[i]) && r[i] in title
    ensures '/' !in r && '.' !in r
  {
    Take(KeepWordChars(title), 50)
  }

  lemma {:induction false} KeepAllKept(s: string)
    requires forall i | 0 <= i < |s| :: Kept(s[i])
    ensures KeepWordChars(s) == s
  {
    if s != [] {
      KeepAllKept(s[1..]);
    }
  }

  /** The filter works character by character: a kept character stays, any other goes. */
  lemma KeepOne(c: char)
    ensures KeepWordChars([c]) == if Kept(c) then [c] else []
  {
    assert [c][1..] == [];
  }

  /** Filtering a concatenation filters each part: every kept character of the title survives,
      in order. */
  lemma {:induction false} KeepAppend(a: string, b: string)
    ensures KeepWordChars(a + b) == KeepWordChars(a) + KeepWordChars(b)
    decreases |a|
  {
    if a == [] {
      assert a + b == b;
    } else {
      assert (a + b)[0] == a[0] && (a + b)[1..] == a[1..] + b;
      KeepAppend(a[1..], b);
      var r := KeepWordChars(b);
      if Kept(a[0]) {
        assert [a[0]] + (KeepWordChars(a[1..]) + r) == ([a[0]] + KeepWordChars(a[1..])) + r;
      }
    }
  }

  /** Sanitising a sanitised name changes nothing. */
  lemma SafeFilenameIdempotent(title: string)
    ensures SafeFilename(SafeFilename(title)) == SafeFilename(title)
  {
    KeepAllKept(SafeFilename(title));
  }

  /** `os.path.join(".", "credits")` */
  const CreditsFolder: string := "./credits"

  /** Where `save_credits` writes: `{safe_filename}_credits.txt` in the credits folder, with
      "Unknown" for a video without a title. Whatever the title, the file lands directly in
      the credits folder. */
  function CreditsFile(title: Option<string>): (path: string)
    ensures CreditsFolder + "/" <= path
    ensures forall i | |CreditsFolder| + 1 <= i < |path| :: path[i] != '/'
    ensures |path| <= |CreditsFolder| + 1 + 50 + |"_credits.txt"|
  {
    var stem := SafeFilename(if title.Some? then title.value else "Unknown");
    var name := stem + "_credits.txt";
    assert '/' !in name by {
      assert forall c | c in name :: c in stem || c in "_credits.txt";
    }
    var path := PyPath.Join(CreditsFolder, name);
    assert path == (CreditsFolder + "/") + name;
    assert forall i | |CreditsFolder| + 1 <= i < |path| :: path[i] == name[i - |CreditsFolder| - 1];
    path
  }

  // ---------------------------------------------------------------- download_video

  /** The extensions `download_video` tries when yt-dlp did not write to the path it was given. */
  const FallbackExtensions: seq<string> := [".mp4", ".mkv", ".webm"]

  /** The first candidate on disk, if any. */
  function FirstIn(candidates: seq<string>, files: set<string>): (r: Option<string>)
    ensures r.Some? ==> r.value in candidates && r.value in files
    ensures r.Some? ==> exists k | 0 <= k < |candidates| ::
                          candidates[k] == r.value && forall j | 0 <= j < k :: candidates[j] !in files
    ensures r.None? <==> forall c | c in candidates :: c !in files
  {
    if candidates == [] then None
    else if candidates[0] in files then Some(candidates[0])
    else
      var r := FirstIn(candidates[1..], files);
      if r.Some? then
        var k :| 0 <= k < |candidates[1..]| && candidates[1..][k] == r.value
                 && forall j | 0 <= j < k :: candidates[1..][j] !in files;
        assert forall j | 0 <= j < k + 1 :: candidates[j] !in files by {
          forall j | 0 <= j < k + 1
            ensures candidates[j] !in files
          {
            if j > 0 { assert candidates[j] == candidates[1..][j - 1]; }
          }
        }
        assert candidates[k + 1] == r.value;
        r
      else r
  }

  /** The paths `download_video` checks, in order: the requested one, then its root with each
      fallback extension. */
  function DownloadCandidates(outputPath: string): seq<string>
  {
    var base := PyPath.SplitExt(outputPath).0;
    [outputPath, base + FallbackExtensions[0], base + FallbackExtensions[1], base + FallbackExtensions[2]]
  }

  /** `download_video` after the yt-dlp call: the requested path if it exists, else the first
      existing root + extension, else `None`. */
  method DownloadVideo(outputPath: string, files: set<string>) returns (r: Option<string>)
    ensures r == FirstIn(DownloadCandidates(outputPath), files)
  {
    var candidates := DownloadCandidates(outputPath);
    if outputPath in files {
      return Some(outputPath);
    }
    var base := PyPath.SplitExt(outputPath).0;
    for i := 0 to |FallbackExtensions|
      invariant FirstIn(candidates, files) == FirstIn(candidates[i + 1..], files)
    {
      var path := base + FallbackExtensions[i];
      assert candidates[i + 1] == path;
      if path in files {
        return Some(path);
      }
      assert candidates[i + 1..][1..] == candidates[i + 2..];
    }
    return None;
  }

  /** The requested path wins whenever it exists; a fallback is returned only when it is missing,
      and then it is the requested path's root with the first fallback extension on disk. */
  lemma DownloadVideoSpec(outputPath: string, files: set<string>)
    ensures outputPath in files ==> FirstIn(DownloadCandidates(outputPath), files) == Some(outputPath)
    ensures var r := FirstIn(DownloadCandidates(outputPath), files);
            r.Some? && r.value != outputPath ==>
              && outputPath !in files
              && exists k | 0 <= k < 3 ::
                   && r.value == PyPath.SplitExt(outputPath).0 + FallbackExtensions[k]
                   && forall j | 0 <= j < k :: PyPath.SplitExt(outputPath).0 + FallbackExtensions[j] !in files
  {
    var c := DownloadCandidates(outputPath);
    var base := PyPath.SplitExt(outputPath).0;
    if outputPath !in files {
      assert FirstIn(c, files) == FirstIn(c[1..], files);
      if base + FallbackExtensions[0] !in files {
        assert FirstIn(c[1..], files) == FirstIn(c[2..], files);
        if base + FallbackExtensions[1] !in files {
          assert FirstIn(c[2..], files) == FirstIn(c[3..], files);
        }
      }
    }
  }
}

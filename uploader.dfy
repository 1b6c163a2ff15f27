/**
  Metadata logic of `YouTubeUploader` in `youtube_uploader.py`: the title cleaner and hook of
  `generate_title`, the text of `generate_description`, and the request body that
  `upload_video` builds before handing it to the Google client.
*/
module Uploader {

  import opened Wrappers
  import opened PyStr
  import ViralAuto

  // ---------------------------------------------------------------- bracketed spans

  /** Index in `t` of the first `close`, provided no line break comes before it: where the
      lazy `.*?` of `\[.*?\]` stops (`.` does not match a line break). */
  function CloseIndex(t: string, close: char): (r: Option<nat>)
    requires close != '\n'
    ensures r.Some? ==> r.value < |t| && t[r.value] == close
    ensures r.Some? ==> forall i | 0 <= i < r.value :: t[i] != close && t[i] != '\n'
    ensures r.None? ==> forall i | 0 <= i < |t| && t[i] == close :: exists j | 0 <= j < i :: t[j] == '\n'
  {
    if t == [] || t[0] == '\n' then None
    else if t[0] == close then Some(0)
    else match CloseIndex(t[1..], close)
      case None => None
      case Some(k) => Some(k + 1)
  }

  /** `re.sub(open + ".*?" + close, '', s)`: scanning left to right, every `open` that is closed
      on the same line is deleted together with everything up to and including its `close`. */
  function RemoveSpans(s: string, open: char, close: char): (r: string)
    requires close != '\n'
    ensures |r| <= |s|
    decreases |s|
  {
    if s == [] then []
    else if s[0] == open && CloseIndex(s[1..], close).Some? then
      RemoveSpans(s[CloseIndex(s[1..], close).value + 2..], open, close)
    else [s[0]] + RemoveSpans(s[1..], open, close)
  }

  /** No `open` in `s` is closed on its own line: nothing left for `RemoveSpans` to delete. */
  predicate SpanFree(s: string, open: char, close: char)
    requires close != '\n'
  {
    forall i | 0 <= i < |s| && s[i] == open :: CloseIndex(s[i + 1..], close).None?
  }

  /** A text is span-free when its first character opens no span and the rest is span-free. */
  lemma SpanFreeCons(x: char, r: string, open: char, close: char)
    requires close != '\n'
    requires SpanFree(r, open, close)
    requires x == open ==> CloseIndex(r, close).None?
    ensures SpanFree([x] + r, open, close)
  {
    var full := [x] + r;
    forall i | 0 <= i < |full| && full[i] == open
      ensures CloseIndex(full[i + 1..], close).None?
    {
      if i > 0 {
        assert full[i + 1..] == r[i..];
        assert r[i - 1] == open;
      } else {
        assert full[1..] == r;
      }
    }
  }

  /** Every suffix of a span-free text is span-free. */
  lemma SpanFreeSuffix(s: string, n: nat, open: char, close: char)
    requires close != '\n' && n <= |s|
    requires SpanFree(s, open, close)
    ensures SpanFree(s[n..], open, close)
  {
    forall i | 0 <= i < |s[n..]| && s[n..][i] == open
      ensures CloseIndex(s[n..][i + 1..], close).None?
    {
      assert s[n..][i + 1..] == s[n + i + 1..];
      assert s[n + i] == open;
    }
  }

  /** The piece a span removal deletes has no line break. */
  lemma SpanPiece(t: string, open: char, close: char)
    requires close != '\n' && open != '\n'
    requires t != [] && t[0] == open && CloseIndex(t[1..], close).Some?
    ensures forall j | 0 <= j < CloseIndex(t[1..], close).value + 2 :: t[j] != '\n'
  {
    var k := CloseIndex(t[1..], close).value;
    forall j | 0 < j < k + 2
      ensures t[j] != '\n'
    {
      assert t[j] == t[1..][j - 1];
    }
  }

  /** Deleting pieces without a line break from a text whose `c`s all follow a line break
      keeps it so. */
  lemma {:induction false} KeptOpenStaysOpen(t: string, open: char, close: char, c: char)
    requires close != '\n' && c != '\n' && open != '\n'
    requires CloseIndex(t, c).None?
    ensures CloseIndex(RemoveSpans(t, open, close), c).None?
    decreases |t|
  {
    if t == [] || t[0] == '\n' {
    } else if t[0] == open && CloseIndex(t[1..], close).Some? {
      var k := CloseIndex(t[1..], close).value;
      SpanPiece(t, open, close);
      SkipPiece(t, k + 2, c);
      KeptOpenStaysOpen(t[k + 2..], open, close, c);
    } else {
      KeptOpenStaysOpen(t[1..], open, close, c);
      var r := RemoveSpans(t[1..], open, close);
      assert RemoveSpans(t, open, close) == [t[0]] + r;
      assert ([t[0]] + r)[1..] == r;
    }
  }

  /** Skipping a prefix without a line break keeps "no `c` before a line break". */
  lemma {:induction false} SkipPiece(t: string, n: nat, c: char)
    requires c != '\n' && n <= |t|
    requires forall i | 0 <= i < n :: t[i] != '\n'
    requires CloseIndex(t, c).None?
    ensures CloseIndex(t[n..], c).None?
    decreases n
  {
    if n > 0 {
      assert t[0] != c;
      assert CloseIndex(t[1..], c).None?;
      assert t[1..][n - 1..] == t[n..];
      SkipPiece(t[1..], n - 1, c);
    }
  }

  /** `RemoveSpans` leaves no span behind: a kept `open` had no `close` before the next line
      break, and deleting later spans (which hold no line break) cannot bring one closer. */
  lemma {:induction false} RemoveSpansSpanFree(s: string, open: char, close: char)
    requires close != '\n' && open != '\n'
    ensures SpanFree(RemoveSpans(s, open, close), open, close)
    decreases |s|
  {
    if s == [] {
    } else if s[0] == open && CloseIndex(s[1..], close).Some? {
      RemoveSpansSpanFree(s[CloseIndex(s[1..], close).value + 2..], open, close);
    } else {
      RemoveSpansSpanFree(s[1..], open, close);
      if s[0] == open {
        KeptOpenStaysOpen(s[1..], open, close, close);
      }
      SpanFreeCons(s[0], RemoveSpans(s[1..], open, close), open, close);
    }
  }

  /** A text without spans is left as it is. */
  lemma {:induction false} SpanFreeFixpoint(s: string, open: char, close: char)
    requires close != '\n'
    requires SpanFree(s, open, close)
    ensures RemoveSpans(s, open, close) == s
    decreases |s|
  {
    if s != [] {
      SpanFreeSuffix(s, 1, open, close);
      SpanFreeFixpoint(s[1..], open, close);
    }
  }

  /** Removing spans a second time changes nothing. */
  lemma RemoveSpansIdempotent(s: string, open: char, close: char)
    requires close != '\n' && open != '\n'
    ensures RemoveSpans(RemoveSpans(s, open, close), open, close) == RemoveSpans(s, open, close)
  {
    RemoveSpansSpanFree(s, open, close);
    SpanFreeFixpoint(RemoveSpans(s, open, close), open, close);
  }

  /** Removing one kind of span brings back no span of another kind. */
  lemma {:induction false} SpanFreeKept(t: string, open: char, close: char, o2: char, c2: char)
    requires close != '\n' && open != '\n' && c2 != '\n'
    requires SpanFree(t, o2, c2)
    ensures SpanFree(RemoveSpans(t, open, close), o2, c2)
    decreases |t|
  {
    if t != [] {
      if t[0] == open && CloseIndex(t[1..], close).Some? {
        var k := CloseIndex(t[1..], close).value;
        SpanFreeSuffix(t, k + 2, o2, c2);
        SpanFreeKept(t[k + 2..], open, close, o2, c2);
      } else {
        SpanFreeSuffix(t, 1, o2, c2);
        SpanFreeKept(t[1..], open, close, o2, c2);
        if t[0] == o2 {
          KeptOpenStaysOpen(t[1..], open, close, c2);
        }
        SpanFreeCons(t[0], RemoveSpans(t[1..], open, close), o2, c2);
      }
    }
  }

  /** Text before the first `open` survives span removal untouched. */
  lemma {:induction false} RemoveSpansKeeps(a: string, b: string, open: char, close: char)
    requires close != '\n' && open !in a
    ensures RemoveSpans(a + b, open, close) == a + RemoveSpans(b, open, close)
    decreases |a|
  {
    if a != [] {
      var s := a + b;
      assert s[0] == a[0] && a[0] in a;
      assert s[1..] == a[1..] + b;
      assert RemoveSpans(s, open, close) == [a[0]] + RemoveSpans(a[1..] + b, open, close);
      RemoveSpansKeeps(a[1..], b, open, close);
      var r := RemoveSpans(b, open, close);
      assert [a[0]] + (a[1..] + r) == ([a[0]] + a[1..]) + r;
      assert a == [a[0]] + a[1..];
    } else {
      assert a + b == b;
    }
  }

  /** The first `close` after a stretch with neither a `close` nor a line break. */
  lemma {:induction false} CloseIndexAt(m: string, rest: string, close: char)
    requires close != '\n' && close !in m && '\n' !in m
    ensures CloseIndex(m + [close] + rest, close) == Some(|m|)
    decreases |m|
  {
    if m != [] {
      assert (m + [close] + rest)[1..] == m[1..] + [close] + rest;
      CloseIndexAt(m[1..], rest, close);
    }
  }

  /** A span closed on its own line is deleted whole, and removal goes on after it. */
  lemma RemoveSpansDrops(m: string, b: string, open: char, close: char)
    requires close != '\n' && close !in m && '\n' !in m
    ensures RemoveSpans([open] + m + [close] + b, open, close) == RemoveSpans(b, open, close)
  {
    var s := [open] + m + [close] + b;
    assert s[1..] == m + [close] + b;
    CloseIndexAt(m, b, close);
    assert s[|m| + 2..] == b;
  }

  // ---------------------------------------------------------------- file extensions

  /** `\.mp4|\.mov|\.mkv` under `re.IGNORECASE`: the letters match either case (and `k` also
      matches the KELVIN SIGN); the dot and the digit match only themselves. */
  predicate IsVideoExtension(t: string)
  {
    |t| == 4 && LowerAsciiString(t) in [".mp4", ".mov", ".mkv"]
  }

  /** Deletes the matches left to right, as `re.sub` does. */
  function RemoveExtensions(s: string): (r: string)
    ensures |r| <= |s| && (|s| - |r|) % 4 == 0
    decreases |s|
  {
    if s == [] then []
    else if |s| >= 4 && IsVideoExtension(s[..4]) then RemoveExtensions(s[4..])
    else [s[0]] + RemoveExtensions(s[1..])
  }

  /** The four characters of `s` at `i` match an extension. */
  predicate MatchAt(s: string, i: nat)
  {
    i + 4 <= |s| && IsVideoExtension(s[i..i + 4])
  }

  /** No four characters of `s` match an extension. */
  predicate NoVideoExtension(s: string)
  {
    forall i: nat | i < |s| :: !MatchAt(s, i)
  }

  /** Every match starts with a dot. */
  lemma ExtensionDot(t: string)
    requires IsVideoExtension(t)
    ensures t[0] == '.'
  {
    assert LowerAsciiString(t)[0] == LowerAscii(t[0]);
  }

  /** A text without a match is left as it is. */
  lemma {:induction false} RemoveExtensionsUnchanged(s: string)
    requires NoVideoExtension(s)
    ensures RemoveExtensions(s) == s
    decreases |s|
  {
    if s != [] {
      forall i: nat | i < |s[1..]|
        ensures !MatchAt(s[1..], i)
      {
        assert !MatchAt(s, i + 1);
        if i + 4 <= |s[1..]| {
          assert s[1..][i..i + 4] == s[i + 1..i + 1 + 4];
        }
      }
      assert !MatchAt(s, 0);
      if |s| >= 4 {
        assert s[..4] == s[0..0 + 4];
      }
      RemoveExtensionsUnchanged(s[1..]);
      assert s == [s[0]] + s[1..];
    }
  }

  /** Text before the first dot survives untouched. */
  lemma {:induction false} RemoveExtensionsKeeps(a: string, b: string)
    requires '.' !in a
    ensures RemoveExtensions(a + b) == a + RemoveExtensions(b)
    decreases |a|
  {
    if a != [] {
      var s := a + b;
      assert s[0] == a[0] && a[0] in a;
      if |s| >= 4 && IsVideoExtension(s[..4]) {
        ExtensionDot(s[..4]);
        assert false;
      }
      assert s[1..] == a[1..] + b;
      assert RemoveExtensions(s) == [a[0]] + RemoveExtensions(a[1..] + b);
      RemoveExtensionsKeeps(a[1..], b);
      var r := RemoveExtensions(b);
      assert [a[0]] + (a[1..] + r) == ([a[0]] + a[1..]) + r;
      assert a == [a[0]] + a[1..];
    } else {
      assert a + b == b;
    }
  }

  /** A match at the front is deleted whole, and removal goes on after it. */
  lemma RemoveExtensionsDrops(e: string, b: string)
    requires IsVideoExtension(e)
    ensures RemoveExtensions(e + b) == RemoveExtensions(b)
  {
    assert (e + b)[..4] == e && (e + b)[4..] == b;
  }

  /** An extension in capitals is removed too. */
  lemma ExtensionExample()
    ensures RemoveExtensions(".MKV") == []
  {
    var s := ".MKV";
    var l := LowerAsciiString(s);
    assert l[0] == '.' && l[1] == 'm' && l[2] == 'k' && l[3] == 'v';
    assert l == ".mkv";
    assert s[..4] == s && s[4..] == [];
  }

  // ---------------------------------------------------------------- generate_title

  /** Step 1 of `generate_title`: drop `[...]` and `(...)` spans, video extensions, the words
      "reddit" and "title" (case-sensitive, one `replace` after the other), then strip. */
  function CleanTitle(original: string): (r: string)
    ensures |r| <= |original|
    ensures r == [] || (!IsSpace(r[0]) && !IsSpace(r[|r| - 1]))
  {
    var s1 := RemoveSpans(original, '[', ']');
    var s2 := RemoveSpans(s1, '(', ')');
    var s3 := RemoveExtensions(s2);
    var s4 := RemoveAll(RemoveAll(s3, "reddit"), "title");
    Strip(s4)
  }

  /** A title with no bracket, no dot and neither banned word is only stripped. */
  lemma CleanTitlePlain(original: string)
    requires '[' !in original && '(' !in original && '.' !in original
    requires !Occurs("reddit", original) && !Occurs("title", original)
    ensures CleanTitle(original) == Strip(original)
  {
    RemoveSpansKeeps(original, [], '[', ']');
    assert original + [] == original;
    RemoveSpansKeeps(original, [], '(', ')');
    RemoveExtensionsKeeps(original, []);
    RemoveAllUnchanged(original, "reddit");
    RemoveAllUnchanged(original, "title");
  }

  /** A `[...]` span closed on its line is cut out of the title, and only it: cleaning the
      title with the span gives what cleaning it without the span gives. */
  lemma CleanTitleDropsSpan(a: string, m: string, b: string)
    requires '[' !in a && ']' !in m && '\n' !in m
    ensures CleanTitle(a + "[" + m + "]" + b) == CleanTitle(a + b)
  {
    var s := a + "[" + m + "]" + b;
    assert s == a + ([ '[' ] + m + [ ']' ] + b);
    RemoveSpansKeeps(a, [ '[' ] + m + [ ']' ] + b, '[', ']');
    RemoveSpansDrops(m, b, '[', ']');
    RemoveSpansKeeps(a, b, '[', ']');
  }

  /** After the two span removals, neither kind of span is left. */
  lemma SpansGone(original: string)
    ensures var s := RemoveSpans(RemoveSpans(original, '[', ']'), '(', ')');
            SpanFree(s, '[', ']') && SpanFree(s, '(', ')')
  {
    var s1 := RemoveSpans(original, '[', ']');
    RemoveSpansSpanFree(original, '[', ']');
    SpanFreeKept(s1, '(', ')', '[', ']');
    RemoveSpansSpanFree(s1, '(', ')');
  }

  /** Step 2: a cleaned title over 65 characters keeps its first 62 and gets "...". */
  function ShortenTitle(clean: string): (r: string)
    ensures |r| <= 65
    ensures |clean| <= 65 ==> r == clean
    ensures |clean| > 65 ==> clean[..62] <= r && OccursAt("...", r, 62) && |r| == 65
  {
    if |clean| > 65 then
      PieceAt(clean[..62], "...", "...");
      clean[..62] + "..."
    else clean
  }

  /** The hooks `generate_title` draws from. */
  const TitleHooks: seq<string> := [
    "Wait for it... \U{1F602}",
    "Unexpected! \U{1F631}",
    "So Satisfying \U{1F924}",
    "Best Reaction! \U{1F525}",
    "Hilarious \U{1F923}",
    "Watch till end! \U{1F440}",
    "No way! \U{1F92F}"
  ]

  const ShortsTag: string := " #Shorts"

  /** Steps 3 and 4 for any hook: "clean - hook #Shorts", or "clean #Shorts" when that would
      pass 100 characters. */
  function TitleWithHook(short: string, hook: string): (t: string)
    ensures |short| <= 65 ==> |t| <= 100
    ensures |t| >= |ShortsTag| && OccursAt(ShortsTag, t, |t| - |ShortsTag|)
    ensures short <= t
  {
    var full := short + " - " + hook + ShortsTag;
    PieceAt(short + " - " + hook, ShortsTag, ShortsTag);
    PieceAt(short, ShortsTag, ShortsTag);
    assert short <= full by {
      assert full == short + (" - " + hook + ShortsTag);
    }
    if |full| > 100 then short + ShortsTag else full
  }

  lemma HookLength(hook: string)
    requires hook in TitleHooks
    ensures |hook| <= 17
  {
    assert hook == TitleHooks[0] || hook == TitleHooks[1] || hook == TitleHooks[2] || hook == TitleHooks[3]
        || hook == TitleHooks[4] || hook == TitleHooks[5] || hook == TitleHooks[6];
  }

  /** `generate_title` with the hook `random.choice` drew (the bound holds for any hook). */
  function GenerateTitle(original: string, hook: string): (t: string)
    ensures |t| <= 100
    ensures ShortenTitle(CleanTitle(original)) <= t
  {
    var short := ShortenTitle(CleanTitle(original));
    assert |short| <= 65;
    TitleWithHook(short, hook)
  }

  /** The length fallback never fires for a hook from the list: 65 + 3 + 17 + 8 = 93, so the
      title always carries its hook. */
  lemma HookAlwaysKept(original: string, hook: string)
    requires hook in TitleHooks
    ensures GenerateTitle(original, hook) == ShortenTitle(CleanTitle(original)) + " - " + hook + ShortsTag
    ensures |GenerateTitle(original, hook)| <= 93
  {
    HookLength(hook);
  }

  // ---------------------------------------------------------------- generate_description

  const DescriptionPromo: string :=
    "\U{1F447} SUBSCRIBE FOR MORE REACTIONS \U{1F447}\n"
    + "https://www.youtube.com/channel/UCxxxxxxxx?sub_confirmation=1\n\n"
    + "\U{1F525} The funniest viral videos and reactions daily! \n"
    + "Don't forget to like, comment and subscribe if you laughed! \U{1F602}\n\n"

  const DescriptionKeywords: string :=
    "Ignore tags:\n"
    + "funny videos, viral reaction, best fails, comedy shorts, \n"
    + "tiktok trends, reddit top posts, funny animals, cute pets, \n"
    + "try not to laugh, reaction video, viral shorts 2024\n\n"
    + "#Shorts #Viral #Funny #Reaction #Comedy #Trending #Fails #Reddit\n"

  const Disclaimer: string :=
    "\n\U{26A0}\U{FE0F} fair use copyright disclaimer:\n"
    + "Copyright Disclaimer Under Section 107 of the Copyright Act 1976, allowance is made for "
    + "'fair use' for purposes such as criticism, commenting, news reporting, teaching, "
    + "scholarship, and research. Fair use is a use permitted by copyright statute that might "
    + "otherwise be infringing."

  /** The credit line, written only for a given, non-empty subreddit (`if subreddit:`). */
  function CreditLine(subreddit: Option<string>): (line: string)
    ensures line != [] <==> subreddit.Some? && subreddit.value != ""
  {
    if subreddit.Some? && subreddit.value != "" then "Credit/Source: r/" + subreddit.value + "\n\n" else ""
  }

  /** The fixed blocks of the description: the promotion after the title, the keyword and
      hashtag block after the optional credit line, and the closing disclaimer. */
  datatype DescriptionText = DescriptionText(promo: string, keywords: string, disclaimer: string)

  const UploaderText := DescriptionText(DescriptionPromo, DescriptionKeywords, Disclaimer)

  /** The description laid out with the blocks of `text`. */
  function Describe(text: DescriptionText, originalTitle: string, subreddit: Option<string>): string
  {
    (originalTitle + "\n\n" + text.promo) + (CreditLine(subreddit) + (text.keywords + text.disclaimer))
  }

  /** `generate_description` */
  function GenerateDescription(originalTitle: string, subreddit: Option<string>): string
  {
    Describe(UploaderText, originalTitle, subreddit)
  }

  /** The description opens with the title and a blank line and always ends with the
      disclaimer. */
  lemma DescriptionFrame(text: DescriptionText, originalTitle: string, subreddit: Option<string>)
    ensures originalTitle + "\n\n" <= Describe(text, originalTitle, subreddit)
    ensures var d := Describe(text, originalTitle, subreddit);
            |d| >= |text.disclaimer| && OccursAt(text.disclaimer, d, |d| - |text.disclaimer|)
  {
    var head := originalTitle + "\n\n" + text.promo;
    var line := CreditLine(subreddit);
    var d := head + (line + (text.keywords + text.disclaimer));
    assert head == (originalTitle + "\n\n") + text.promo;
    assert d == (originalTitle + "\n\n") + (text.promo + (line + (text.keywords + text.disclaimer)));
    assert d == (head + line + text.keywords) + text.disclaimer;
    PieceAt(head + line + text.keywords, text.disclaimer, text.disclaimer);
  }

  /** The credit line is the only difference a subreddit makes: the description with one is
      the description without one, with "Credit/Source: r/{subreddit}" and a blank line
      inserted after the promotional block, and that line is there exactly when the
      subreddit is given and not empty. */
  lemma DescriptionCredit(text: DescriptionText, originalTitle: string, subreddit: Option<string>)
    ensures var with := Describe(text, originalTitle, subreddit);
            var without := Describe(text, originalTitle, None);
            var at := |originalTitle| + 2 + |text.promo|;
            var line := CreditLine(subreddit);
            && (line != [] ==> line == "Credit/Source: r/" + subreddit.value + "\n\n")
            && at <= |without| && at + |line| <= |with|
            && with[..at] == without[..at]
            && OccursAt(line, with, at)
            && with[at + |line|..] == without[at..]
            && (line == [] ==> with == without)
  {
    var head := originalTitle + "\n\n" + text.promo;
    var line := CreditLine(subreddit);
    var tail := text.keywords + text.disclaimer;
    assert CreditLine(None) == [];
    assert Describe(text, originalTitle, None) == head + ([] + tail);
    PieceAt(head, line + tail, line);
    assert (head + (line + tail))[..|head|] == head;
    assert (head + ([] + tail))[..|head|] == head;
    assert (head + (line + tail))[|head| + |line|..] == tail;
    assert (head + ([] + tail))[|head|..] == tail;
    assert line == [] ==> head + (line + tail) == head + ([] + tail);
  }

  // ---------------------------------------------------------------- upload_video

  const DefaultTags: seq<string> := ["shorts", "viral", "funny", "reaction"]
  /** `category_id='24'`, Entertainment. */
  const DefaultCategory: string := "24"

  /** The `body` of the insert request. */
  datatype UploadBody = UploadBody(
    title: string, description: string, tags: seq<string>, categoryId: string,
    privacyStatus: string, madeForKids: bool)

  function TakeTags(tags: seq<string>, n: nat): (r: seq<string>)
    ensures r <= tags && |r| == if |tags| <= n then |tags| else n
  {
    if |tags| <= n then tags else tags[..n]
  }

  /** The request body of `upload_video`, or `None` when the client is not authenticated (it
      returns before building one). A missing tag list means the four default tags; the title,
      description and tag list are cut to YouTube's limits. */
  function BuildUploadBody(authenticated: bool, title: string, description: string,
                           tags: Option<seq<string>>, categoryId: string): (r: Option<UploadBody>)
    ensures r.None? <==> !authenticated
    ensures r.Some? ==>
      && |r.value.title| <= 100 && r.value.title <= title
      && |r.value.description| <= 5000 && r.value.description <= description
      && |r.value.tags| <= 500
      && r.value.tags <= (if tags.Some? then tags.value else DefaultTags)
      && r.value.categoryId == categoryId
      && r.value.privacyStatus == "public" && !r.value.madeForKids
    ensures r.Some? ==>
      && |r.value.title| == (if |title| <= 100 then |title| else 100)
      && |r.value.description| == (if |description| <= 5000 then |description| else 5000)
      && |r.value.tags| == (if tags.None? then |DefaultTags| else if |tags.value| <= 500 then |tags.value| else 500)
    ensures r.Some? && |title| <= 100 ==> r.value.title == title
    ensures r.Some? && |description| <= 5000 ==> r.value.description == description
    ensures r.Some? && tags.None? ==> r.value.tags == DefaultTags
    ensures r.Some? && tags.Some? && |tags.value| <= 500 ==> r.value.tags == tags.value
  {
    if !authenticated then None
    else
      var tagList := if tags.None? then DefaultTags else tags.value;
      Some(UploadBody(Take(title, 100), Take(description, 5000), TakeTags(tagList, 500),
                      categoryId, "public", false))
  }

  /** Generated titles are never cut by the upload: `generate_title` already fits the limit. */
  lemma GeneratedTitleUploadsWhole(original: string, hook: string, description: string,
                                   tags: Option<seq<string>>)
    ensures BuildUploadBody(true, GenerateTitle(original, hook), description, tags, DefaultCategory).value.title
            == GenerateTitle(original, hook)
  {
  }

  /** The bot's auto-mode title and tag list would reach YouTube uncut: the title has at most
      75 characters and the list at most 16 tags. */
  lemma AutoMetadataUploadsWhole(source: string, hook: string, description: string, sourceTags: seq<string>)
    requires hook in ViralAuto.AutoHooks
    ensures var body := BuildUploadBody(true, ViralAuto.AutoTitle(source, hook), description,
                                        Some(ViralAuto.AutoTags(sourceTags)), DefaultCategory);
            body.Some? && body.value.title == ViralAuto.AutoTitle(source, hook)
            && body.value.tags == ViralAuto.AutoTags(sourceTags)
  {
    ViralAuto.AutoTitleBounds(source, hook);
    ViralAuto.AutoTagsSpec(sourceTags);
  }
}

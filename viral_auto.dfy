/**
  The title, description and tag list that `auto_mode` of `viral_video_bot.py` builds from the
  downloaded video's metadata. The hook and the commentary, drawn at random in the program,
  arrive as parameters; the commentary may be any text.
*/
module ViralAuto {

  import opened PyStr

  const AutoHooks: seq<string> := ["Wait for it!", "Hilarious!", "Too Cute!", "Reaction"]

  const BaseTags: seq<string> := ["shorts", "funny", "pets", "reaction", "viral", "trending"]

  /** Ending of every auto title: " 😲 #shorts". */
  const TitleTail: string := " \U{1F632} #shorts"

  /** `source_title.split('#')[0].strip()[:50]` */
  function CleanSourceTitle(source: string): (r: string)
    ensures |r| <= 50 && '#' !in r
    ensures r == [] || !IsSpace(r[0])
  {
    Take(Strip(BeforeFirst(source, '#')), 50)
  }

  /** The clean title is a piece of the source title that comes before its first `#`, with
      only white space in front of it. */
  lemma CleanSourceTitleSpec(source: string) returns (i: nat)
    ensures OccursAt(CleanSourceTitle(source), source, i)
    ensures AllSpace(source[..i])
    ensures forall k | 0 <= k < i + |CleanSourceTitle(source)| :: source[k] != '#'
  {
    var head := BeforeFirst(source, '#');
    var j;
    i, j := StripSpec(head);
    var r := CleanSourceTitle(source);
    PieceOfPrefix(source, head, i, j, r);
    assert source[..i] == head[..i];
    forall k | 0 <= k < i + |r|
      ensures source[k] != '#'
    {
      assert source[k] == head[k] && head[k] in head;
    }
  }

  lemma PieceOfPrefix(source: string, head: string, i: nat, j: nat, r: string)
    requires head <= source && i <= j <= |head| && r <= head[i..j]
    ensures OccursAt(r, source, i) && i + |r| <= |head|
  {
    assert source[i..i + |r|] == head[i..j][..|r|];
  }

  /** No `#` in `s`. */
  predicate NoHash(s: string)
  {
    forall i | 0 <= i < |s| :: s[i] != '#'
  }

  lemma NoHashAppend(a: string, b: string)
    requires NoHash(a) && NoHash(b)
    ensures NoHash(a + b)
  {
    forall i | 0 <= i < |a + b|
      ensures (a + b)[i] != '#'
    {
      if i >= |a| {
        assert (a + b)[i] == b[i - |a|];
      }
    }
  }

  /** What the auto hooks have in common: short, and without `#`. */
  lemma HookFacts(hook: string)
    requires hook in AutoHooks
    ensures |hook| <= 12 && NoHash(hook)
  {
    assert hook == AutoHooks[0] || hook == AutoHooks[1] || hook == AutoHooks[2] || hook == AutoHooks[3];
  }

  /** The title tail is ten characters, and its first `#` is its fourth. */
  lemma TitleTailFacts()
    ensures |TitleTail| == 10 && NoHash(TitleTail[..3])
  {
  }

  /** `f"{clean_source_title} - {hook} 😲 #shorts"` */
  function AutoTitle(source: string, hook: string): string
  {
    CleanSourceTitle(source) + " - " + hook + TitleTail
  }

  /** The auto title opens with the clean title and the hook, ends with the tail, and has at
      most 63 characters besides the hook. */
  lemma AutoTitleSpec(source: string, hook: string)
    ensures CleanSourceTitle(source) + " - " + hook <= AutoTitle(source, hook)
    ensures var t := AutoTitle(source, hook);
            |t| >= |TitleTail| && OccursAt(TitleTail, t, |t| - |TitleTail|)
    ensures |AutoTitle(source, hook)| <= 63 + |hook|
  {
    TitleTailFacts();
    TitleShape(CleanSourceTitle(source), hook, TitleTail, 3);
  }

  /** With a hook from the list, the auto title has at most 75 characters and its only `#` is
      the one of the closing `#shorts`. */
  lemma AutoTitleBounds(source: string, hook: string)
    requires hook in AutoHooks
    ensures |AutoTitle(source, hook)| <= 75
    ensures forall i | 0 <= i < |AutoTitle(source, hook)| - 7 :: AutoTitle(source, hook)[i] != '#'
  {
    var clean := CleanSourceTitle(source);
    TitleTailFacts();
    HookFacts(hook);
    assert NoHash(clean);
    TitleShape(clean, hook, TitleTail, 3);
  }

  /** `clean + " - " + hook + tail` for any three texts: it opens with `clean + " - " + hook`,
      ends with `tail`, and when neither `clean`, `hook` nor the first `n` characters of `tail`
      hold a `#`, no `#` comes before the tail's `n`-th character. */
  lemma TitleShape(clean: string, hook: string, tail: string, n: nat)
    requires n <= |tail|
    ensures var t := clean + " - " + hook + tail;
            && clean + " - " + hook <= t
            && OccursAt(tail, t, |t| - |tail|)
            && |t| == |clean| + 3 + |hook| + |tail|
    ensures NoHash(clean) && NoHash(hook) && NoHash(tail[..n]) ==>
              forall i | 0 <= i < |clean| + 3 + |hook| + n :: (clean + " - " + hook + tail)[i] != '#'
  {
    var front := clean + " - " + hook;
    if NoHash(clean) && NoHash(hook) && NoHash(tail[..n]) {
      assert NoHash(" - ");
      NoHashAppend(clean, " - ");
      NoHashAppend(clean + " - ", hook);
      TailShape(front, tail, n);
    } else {
      PieceAt(front, tail, tail);
    }
  }

  /** A text without `#` followed by a tail whose first `n` characters have no `#`: the tail
      sits at the end, and no `#` comes before its `n`-th character. */
  lemma TailShape(front: string, tail: string, n: nat)
    requires NoHash(front) && n <= |tail| && NoHash(tail[..n])
    ensures front <= front + tail && OccursAt(tail, front + tail, |front|)
    ensures forall i | 0 <= i < |front| + n :: (front + tail)[i] != '#'
  {
    PieceAt(front, tail, tail);
    var t := front + tail;
    forall i | 0 <= i < |front| + n
      ensures t[i] != '#'
    {
      if i >= |front| {
        assert t[i] == tail[..n][i - |front|];
      }
    }
  }

  /** `'#' + t.replace(' ', '')` */
  function Hashtag(tag: string): (h: string)
    ensures |h| >= 1 && h[0] == '#'
    ensures forall i | 1 <= i < |h| :: h[i] != ' '
  {
    var body := RemoveAll(tag, " ");
    NoSpaceLeft(tag);
    assert forall i | 1 <= i < |"#" + body| :: ("#" + body)[i] == body[i - 1];
    "#" + body
  }

  lemma {:induction false} NoSpaceLeft(s: string)
    ensures ' ' !in RemoveAll(s, " ")
    decreases |s|
  {
    if s == [] {
    } else if " " <= s {
      NoSpaceLeft(s[1..]);
    } else {
      NoSpaceLeft(s[1..]);
      assert s[0] != ' ';
    }
  }

  function Hashtags(tags: seq<string>): (hs: seq<string>)
    ensures |hs| == |tags| && forall k | 0 <= k < |tags| :: hs[k] == Hashtag(tags[k])
  {
    if tags == [] then []
    else
      var rest := Hashtags(tags[1..]);
      assert forall k | 1 <= k < |tags| :: ([Hashtag(tags[0])] + rest)[k] == rest[k - 1];
      [Hashtag(tags[0])] + rest
  }

  /** The first five source tags, as `source_tags[:5]` */
  function FirstTags(tags: seq<string>, n: nat): (r: seq<string>)
    ensures |r| <= n && r <= tags && (|tags| >= n ==> |r| == n)
  {
    if |tags| <= n then tags else tags[..n]
  }

  const ReactionLead: string := "My reaction to this amazing video: "
  const SubscribeLine: string := "Subscribe for more satisfying and funny reactions!\n\n"
  const BaseHashtags: string := "#shorts #funny #pets #reaction #viral "

  /** The fixed part of the `auto_mode` description, up to the source hashtags. */
  function DescriptionHead(commentary: string, cleanTitle: string): string
  {
    (commentary + "\n\n") + ((ReactionLead + cleanTitle + "\n\n") + (SubscribeLine + BaseHashtags))
  }

  /** The description of `auto_mode`. */
  function AutoDescription(commentary: string, cleanTitle: string, sourceTags: seq<string>): string
  {
    DescriptionHead(commentary, cleanTitle) + Join(Hashtags(FirstTags(sourceTags, 5)), " ")
  }

  /** The description opens with the commentary and then names the video. */
  lemma AutoDescriptionOpens(commentary: string, cleanTitle: string, sourceTags: seq<string>)
    ensures commentary + "\n\n" <= AutoDescription(commentary, cleanTitle, sourceTags)
    ensures OccursAt(ReactionLead + cleanTitle + "\n\n", AutoDescription(commentary, cleanTitle, sourceTags),
                     |commentary| + 2)
  {
    var a := commentary + "\n\n";
    var p := ReactionLead + cleanTitle + "\n\n";
    var q := SubscribeLine + BaseHashtags;
    var line := Join(Hashtags(FirstTags(sourceTags, 5)), " ");
    var tail := p + (q + line);
    assert (a + (p + q)) + line == a + tail;
    PieceAt(a, tail, p);
  }

  /** Each of the first five source tags appears in the description, at `at`, as a hashtag
      without spaces. */
  lemma AutoDescriptionHashtags(commentary: string, cleanTitle: string, sourceTags: seq<string>, k: nat)
    returns (at: nat)
    requires k < |sourceTags| && k < 5
    ensures OccursAt(Hashtag(sourceTags[k]), AutoDescription(commentary, cleanTitle, sourceTags), at)
    ensures forall i | 1 <= i < |Hashtag(sourceTags[k])| :: Hashtag(sourceTags[k])[i] != ' '
  {
    var tags := FirstTags(sourceTags, 5);
    assert tags[k] == sourceTags[k];
    at := HashtagAfter(DescriptionHead(commentary, cleanTitle), tags, k);
  }

  /** A tag's hashtag occurs in any text that ends with the space-joined hashtags. */
  lemma HashtagAfter(head: string, tags: seq<string>, k: nat) returns (at: nat)
    requires k < |tags|
    ensures OccursAt(Hashtag(tags[k]), head + Join(Hashtags(tags), " "), at)
  {
    var i := JoinContains(Hashtags(tags), " ", k);
    OccursAfter(Hashtag(tags[k]), head, Join(Hashtags(tags), " "), i);
    at := |head| + i;
  }

  // ---------------------------------------------------------------- tags

  predicate NoDuplicates(s: seq<string>)
  {
    forall i, j | 0 <= i < j < |s| :: s[i] != s[j]
  }

  /** One order of `list(set(s))`: each distinct element once, at its first occurrence. */
  function Dedup(s: seq<string>): (r: seq<string>)
    ensures NoDuplicates(r) && |r| <= |s|
    ensures forall x :: x in r <==> x in s
  {
    if s == [] then []
    else
      var rest := Dedup(s[..|s| - 1]);
      assert s == s[..|s| - 1] + [s[|s| - 1]];
      if s[|s| - 1] in rest then rest else rest + [s[|s| - 1]]
  }

  /** Deduplicating a longer list only appends. */
  lemma {:induction false} DedupExtends(a: seq<string>, b: seq<string>)
    ensures Dedup(a) <= Dedup(a + b)
    decreases |b|
  {
    if b != [] {
      var c := b[..|b| - 1];
      DedupExtends(a, c);
      assert (a + b)[..|a + b| - 1] == a + c;
    } else {
      assert a + b == a;
    }
  }

  /** A list without duplicates is its own deduplication. */
  lemma {:induction false} DedupDistinct(s: seq<string>)
    requires NoDuplicates(s)
    ensures Dedup(s) == s
  {
    if s != [] {
      var p := s[..|s| - 1];
      DedupDistinct(p);
      assert s[|s| - 1] !in p;
    }
  }

  /** `list(set(base_tags + source_tags[:10]))` */
  function AutoTags(sourceTags: seq<string>): (r: seq<string>)
  {
    Dedup(BaseTags + FirstTags(sourceTags, 10))
  }

  /** The tag list has no duplicates, holds all six base tags and every one of the first ten
      source tags, and nothing else, so it has between 6 and 16 entries. */
  lemma AutoTagsSpec(sourceTags: seq<string>)
    ensures NoDuplicates(AutoTags(sourceTags))
    ensures forall t | t in BaseTags :: t in AutoTags(sourceTags)
    ensures forall t | t in FirstTags(sourceTags, 10) :: t in AutoTags(sourceTags)
    ensures forall t | t in AutoTags(sourceTags) :: t in BaseTags || t in FirstTags(sourceTags, 10)
    ensures 6 <= |AutoTags(sourceTags)| <= 16
  {
    var extra := FirstTags(sourceTags, 10);
    assert NoDuplicates(BaseTags);
    DedupDistinct(BaseTags);
    DedupExtends(BaseTags, extra);
  }
}

/**
  Values shared by both composition pipelines: frame sizes, placements and rectangles on the
  output canvas, trim windows, audio tracks, and the integer arithmetic of the two fit modes.
  A clip's media content is never modelled, only its width, height, duration and whether it
  carries audio.
*/
module Media {

  import opened Wrappers

  /** A duration in seconds (a clip's duration is never negative). */
  type Seconds = r: real | r >= 0.0

  datatype Size = Size(w: int, h: int)

  /** A scaled frame and the offset of its top-left corner. */
  datatype Placement = Placement(size: Size, x: int, y: int)

  /** An axis-aligned rectangle of pixels [x, x + w) x [y, y + h). */
  datatype Rect = Rect(x: int, y: int, w: int, h: int)

  /** A `subclip(start, end)` window. */
  datatype Window = Window(start: real, end: real)

  /** What the pipelines read of a decoded clip. */
  datatype ClipInfo = ClipInfo(w: nat, h: nat, duration: Seconds, hasAudio: bool)

  /** An input of the audio mix. Gains are whole percentages: 10 and 30 stand for the float
      multipliers 0.10 and 0.30 passed to `volumex`; every other track plays at full gain. */
  datatype Track =
    | TemplateAudio
    | ReactionAudio
    | SourceAudio
    | Voiceover(path: string)
    | Music(path: string, gainPercent: nat, until: real)

  /** What a composite is stacked from, bottom first. A caption's size comes from the font
      renderer, so only its text is kept. */
  datatype LayerKind =
    | TemplateLayer
    | BackgroundFillLayer
    | ForegroundLayer
    | BlackBackground
    | MainVideoLayer
    | ReactionLayer

  datatype Layer = Visual(kind: LayerKind, rect: Rect) | Caption(text: string)

  function RectOf(p: Placement): Rect
  {
    Rect(p.x, p.y, p.size.w, p.size.h)
  }

  predicate Inside(inner: Rect, outer: Rect)
  {
    outer.x <= inner.x && inner.x + inner.w <= outer.x + outer.w
    && outer.y <= inner.y && inner.y + inner.h <= outer.y + outer.h
  }

  function Min(a: real, b: real): (m: real)
    ensures m <= a && m <= b && (m == a || m == b)
  {
    if a <= b then a else b
  }

  /** Python's `min(a, b, c)`. */
  function Min3(a: real, b: real, c: real): (m: real)
    ensures m <= a && m <= b && m <= c && (m == a || m == b || m == c)
  {
    Min(Min(a, b), c)
  }

  /** `path and os.path.exists(path)`: a path that is given, non-empty and on disk. */
  predicate Present(path: Option<string>, files: set<string>)
  {
    path.Some? && path.value != "" && path.value in files
  }

  /** Where a kind of track goes in an audio mix. Both pipelines append their tracks in this
      order: template or reaction audio first, then the source or voice-over, music last. */
  function Rank(t: Track): nat
  {
    match t
    case TemplateAudio => 0
    case ReactionAudio => 1
    case SourceAudio => 2
    case Voiceover(_) => 3
    case Music(_, _, _) => 4
  }

  predicate RankSorted(tracks: seq<Track>)
  {
    forall i, j | 0 <= i < j < |tracks| :: Rank(tracks[i]) < Rank(tracks[j])
  }

  /** Two mixes in rank order with the same tracks are the same list. */
  lemma {:induction false} SortedByRankEqual(a: seq<Track>, b: seq<Track>)
    requires RankSorted(a) && RankSorted(b)
    requires forall t :: t in a <==> t in b
    ensures a == b
    decreases |a| + |b|
  {
    if a != [] {
      assert a[0] in b;
    }
    if b != [] {
      assert b[0] in a;
    }
    if a != [] && b != [] {
      assert a[0] == b[0];
      assert a == [a[0]] + a[1..] && b == [b[0]] + b[1..];
      forall t
        ensures t in a[1..] <==> t in b[1..]
      {
        if t in a[1..] {
          var k :| 1 <= k < |a| && a[k] == t;
          assert Rank(a[0]) < Rank(t);
          assert t in b;
        }
        if t in b[1..] {
          var k :| 1 <= k < |b| && b[k] == t;
          assert Rank(b[0]) < Rank(t);
          assert t in a;
        }
      }
      SortedByRankEqual(a[1..], b[1..]);
    }
  }
}

/**
  Contain and cover fitting with exact integers. For positive heights the float test
  `w / h > zw / zh` is `w * zh > zw * h`, and `int(zw / (w / h))` and `int(zh * (w / h))` are the
  floors `zw * h / w` and `zh * w / h`.
*/
module Fit {

  import opened Media

  /** The frame is strictly wider (in aspect ratio) than the zone; equal ratios are not. */
  predicate Wider(w: nat, h: nat, zw: nat, zh: nat)
  {
    w * zh > zw * h
  }

  /** Scale to fit inside the zone. */
  function ContainSize(w: nat, h: nat, zw: nat, zh: nat): (s: Size)
    requires h > 0 && zh > 0
    ensures s.w >= 0 && s.h >= 0
  {
    if Wider(w, h, zw, zh) then Size(zw, zw * h / w) else Size(zh * w / h, zh)
  }

  /** Scale to fill the zone; a zero width cannot be scaled up (Python divides by its ratio). */
  function CoverSize(w: nat, h: nat, zw: nat, zh: nat): (s: Size)
    requires w > 0 && h > 0 && zh > 0
    ensures s.w >= 0 && s.h >= 0
  {
    if Wider(w, h, zw, zh) then Size(zh * w / h, zh) else Size(zw, zw * h / w)
  }

  /** The contain size has a zero side. A resize to such a size raises: moviepy renders the
      first resized frame at once, and its resizers refuse an empty side. */
  predicate ContainEmpty(w: nat, h: nat, zw: nat, zh: nat)
  {
    if Wider(w, h, zw, zh) then zw * h < w else zh * w < h
  }

  /** The cover size has a zero side. */
  predicate CoverEmpty(w: nat, h: nat, zw: nat, zh: nat)
  {
    if Wider(w, h, zw, zh) then zh * w < h else zw * h < w
  }

  /** The centring offset `(zone - size) // 2`. */
  function Center(zone: int, size: int): int
  {
    (zone - size) / 2
  }

  lemma DivBelow(a: int, b: int, c: int)
    requires c > 0 && a < b * c
    ensures a / c < b
  {
  }

  lemma DivAtLeast(a: int, b: int, c: int)
    requires c > 0 && a >= b * c
    ensures a / c >= b
  {
    FloorBounds(a, c);
    if a / c < b {
      MulMonotone(a / c + 1, b, c);
    }
  }

  lemma MulMonotone(x: int, y: int, c: int)
    requires x <= y && c >= 0
    ensures x * c <= y * c
  {
  }

  lemma FloorBounds(a: int, c: int)
    requires c > 0
    ensures (a / c) * c <= a < (a / c + 1) * c
  {
  }

  /** Contain: the scaled frame never exceeds the zone, it touches the zone on the axis the
      ratio test picked, and the other side is the floor of the aspect-preserving length. */
  lemma {:induction false} ContainFits(w: nat, h: nat, zw: nat, zh: nat)
    requires h > 0 && zh > 0
    ensures var s := ContainSize(w, h, zw, zh);
      && 0 <= s.w <= zw && 0 <= s.h <= zh
      && (Wider(w, h, zw, zh) ==> s.w == zw && s.h * w <= zw * h < (s.h + 1) * w)
      && (!Wider(w, h, zw, zh) ==> s.h == zh && s.w * h <= zh * w < (s.w + 1) * h)
  {
    var s := ContainSize(w, h, zw, zh);
    if Wider(w, h, zw, zh) {
      assert w > 0;
      assert zw * h < zh * w;
      DivBelow(zw * h, zh + 1, w);
      FloorBounds(zw * h, w);
    } else {
      assert zh * w <= zw * h;
      DivBelow(zh * w, zw + 1, h);
      FloorBounds(zh * w, h);
    }
  }

  /** Cover: the scaled frame is never smaller than the zone, and it matches the zone on the
      axis the ratio test picked. */
  lemma {:induction false} CoverFills(w: nat, h: nat, zw: nat, zh: nat)
    requires w > 0 && h > 0 && zh > 0
    ensures var s := CoverSize(w, h, zw, zh);
      && s.w >= zw && s.h >= zh
      && (Wider(w, h, zw, zh) ==> s.h == zh && s.w * h <= zh * w < (s.w + 1) * h)
      && (!Wider(w, h, zw, zh) ==> s.w == zw && s.h * w <= zw * h < (s.h + 1) * w)
  {
    if Wider(w, h, zw, zh) {
      assert zh * w >= zw * h;
      DivAtLeast(zh * w, zw, h);
      FloorBounds(zh * w, h);
    } else {
      assert zw * h >= zh * w;
      DivAtLeast(zw * h, zh, w);
      FloorBounds(zw * h, w);
    }
  }

  /** A floored quotient is zero exactly when the dividend is below the divisor. */
  lemma FloorZero(a: nat, c: nat)
    requires c > 0
    ensures a / c == 0 <==> a < c
  {
    if a >= c {
      DivAtLeast(a, 1, c);
    }
  }

  /** The contain size has a zero side exactly in the `ContainEmpty` case. */
  lemma ContainEmptySpec(w: nat, h: nat, zw: nat, zh: nat)
    requires h > 0 && zh > 0
    ensures var s := ContainSize(w, h, zw, zh);
      s.w == 0 || s.h == 0 <==> ContainEmpty(w, h, zw, zh)
  {
    if Wider(w, h, zw, zh) {
      FloorZero(zw * h, w);
    } else {
      FloorZero(zh * w, h);
    }
  }

  /** The cover size has a zero side exactly in the `CoverEmpty` case, which needs a zone of
      width 0. */
  lemma CoverEmptySpec(w: nat, h: nat, zw: nat, zh: nat)
    requires w > 0 && h > 0 && zh > 0
    ensures var s := CoverSize(w, h, zw, zh);
      (s.w == 0 || s.h == 0 <==> CoverEmpty(w, h, zw, zh)) && (CoverEmpty(w, h, zw, zh) ==> zw == 0)
  {
    CoverFills(w, h, zw, zh);
    if Wider(w, h, zw, zh) {
      FloorZero(zh * w, h);
      if zh * w < h {
        MulMonotone(1, zh, w);
        assert zw * h < h;
      }
    } else {
      FloorZero(zw * h, w);
      if zw * h < w {
        MulMonotone(1, zh, w);
      }
    }
  }

  /** A frame no larger than its zone, offset by `Center`, lies inside the zone with the spare
      room split evenly (the odd pixel, if any, on the far side). */
  lemma CenterInside(zone: int, size: int)
    requires 0 <= size <= zone
    ensures var o := Center(zone, size);
      0 <= o && o + size <= zone && (zone - size - 2 * o == 0 || zone - size - 2 * o == 1)
  {
  }

  /** A frame at least as large as its zone, offset by `Center`, overhangs it on both sides,
      by the same amount up to one pixel. */
  lemma CenterOverhang(zone: int, size: int)
    requires size >= zone
    ensures var o := Center(zone, size);
      o <= 0 && o + size >= zone && (zone - size - 2 * o == 0 || zone - size - 2 * o == 1)
  {
  }
}

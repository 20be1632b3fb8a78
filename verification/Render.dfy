/**
 The incremental renderer of kernel/src/render.rs: circles drawn over each other in a back buffer
 that is never cleared again, of which only a band of rows is copied to the screen.
 */
module Render {
  import opened Pixels

  // --- colours ---------------------------------------------------------------------------

  /** The opacity of each step of the stagger. */
  function Stagger(step: nat): (opacity: nat)
    requires step < 3
    ensures opacity <= 255
  {
    if step == 0 then 255 else if step == 1 then 153 else 76
  }

  /** One colour component mixed; the sum also fits the 16 bits it is computed in. */
  function Mix(a: Byte, b: Byte, opacity: nat): (m: Byte)
    requires opacity <= 255
    ensures (a <= m <= b || b <= m <= a) && a * opacity + b * (255 - opacity) < 0x1_0000
    ensures 255 * m <= a * opacity + b * (255 - opacity) < 255 * m + 255
  {
    MixBetween(a, b, opacity);
    (a * opacity + b * (255 - opacity)) / 255
  }

  /** Full opacity is the foreground, none the background. */
  lemma MixEnds(a: Byte, b: Byte)
    ensures Mix(a, b, 255) == a && Mix(a, b, 0) == b
  {
  }

  lemma MixBetween(a: nat, b: nat, opacity: nat)
    requires opacity <= 255 && a < 256 && b < 256
    ensures var sum := a * opacity + b * (255 - opacity);
      (255 * a <= sum <= 255 * b || 255 * b <= sum <= 255 * a) && sum < 0x1_0000
  {
    var rest := 255 - opacity;
    assert 255 * a == a * opacity + a * rest && 255 * b == b * opacity + b * rest;
    if a <= b {
      Scaled(opacity, a, b);
      Scaled(rest, a, b);
    } else {
      Scaled(opacity, b, a);
      Scaled(rest, b, a);
    }
  }

  lemma Scaled(k: nat, a: nat, b: nat)
    requires a <= b
    ensures a * k <= b * k
  {
    Monotone(k, a, b);
  }

  function Blend(fg: Rgb, bg: Rgb, opacity: nat): Rgb
    requires opacity <= 255
  {
    Rgb(Mix(fg.r, bg.r, opacity), Mix(fg.g, bg.g, opacity), Mix(fg.b, bg.b, opacity))
  }

  /** Which step of the stagger bubble `i` shows when `lead` leads. */
  function StepOf(i: nat, lead: nat): (step: nat)
    requires i < 3 && lead < 3
    ensures step < 3
  {
    (3 + i - lead) % 3
  }

  /** The leader is fully opaque, and each opacity is used by exactly one bubble. */
  lemma EachOpacityOnce(lead: nat)
    requires lead < 3
    ensures Stagger(StepOf(lead, lead)) == 255
    ensures forall i, j :: 0 <= i < j < 3 ==> Stagger(StepOf(i, lead)) != Stagger(StepOf(j, lead))
  {
    forall i, j | 0 <= i < j < 3 ensures StepOf(i, lead) != StepOf(j, lead) {
    }
  }

  function Shade(i: nat, lead: nat): Rgb
    requires i < 3 && lead < 3
  {
    Blend(BUILD_ACID, HARDCORE_BLACK, Stagger(StepOf(i, lead)))
  }

  /**
   The three shades in numbers: the leader in the full acid green, the next bubble at 60 % and the
   one after that at 30 %, counting left to right and round.
   */
  lemma ShadesInNumbers(lead: nat)
    requires lead < 3
    ensures Shade(lead, lead) == Rgb(0xD6, 0xFF, 0x3F)
    ensures Shade((lead + 1) % 3, lead) == Rgb(134, 158, 44)
    ensures Shade((lead + 2) % 3, lead) == Rgb(73, 85, 30)
  {
    assert StepOf(lead, lead) == 0 && StepOf((lead + 1) % 3, lead) == 1 && StepOf((lead + 2) % 3, lead) == 2;
  }

  // --- circles ----------------------------------------------------------------------------

  predicate InDisc(cx: int, cy: int, r: int, x: int, y: int) {
    0 <= r && (x - cx) * (x - cx) + (y - cy) * (y - cy) <= r * r
  }

  lemma SquareGrows(r: nat, e: nat)
    requires r < e
    ensures r * r < e * e
  {
    Monotone(r, r, e);
    Monotone(e, r + 1, e);
    assert e * (r + 1) == r * e + e;
  }

  lemma Square(d: int, r: int)
    requires 0 <= r && d * d <= r * r
    ensures -r <= d <= r
  {
    var e := if d < 0 then -d else d;
    assert e * e == d * d;
    if r < e {
      SquareGrows(r, e);
    }
  }

  /** A disc stays within its radius of the centre. */
  lemma DiscWithin(cx: int, cy: int, r: int, x: int, y: int)
    requires InDisc(cx, cy, r, x, y)
    ensures cx - r <= x <= cx + r && cy - r <= y <= cy + r
  {
    SquareNonNegative(x - cx);
    SquareNonNegative(y - cy);
    Square(x - cx, r);
    Square(y - cy, r);
  }

  lemma SquareNonNegative(d: int)
    ensures d * d >= 0
  {
  }

  /** Is `b` a colour byte of an on-screen pixel of the disc? */
  predicate Hit(info: Info, cx: int, cy: int, r: int, b: nat)
    requires 0 < info.bpp && 0 < info.stride
  {
    && ChannelOf(info, b) < Channels(info.fmt)
    && Column(info, b) < info.width && Row(info, b) < info.height
    && InDisc(cx, cy, r, Column(info, b), Row(info, b))
  }

  /** What painting a disc makes of byte `b`, whose value was `was`. */
  function Painted(info: Info, cx: int, cy: int, r: int, rgb: Rgb, b: nat, was: Byte): Byte
    requires 0 < info.bpp && 0 < info.stride
  {
    if Hit(info, cx, cy, r, b) then Channel(info.fmt, rgb, ChannelOf(info, b)) else was
  }

  function Max(a: int, b: int): int {
    if a < b then b else a
  }

  function Min(a: int, b: int): int {
    if a < b then a else b
  }

  /** One row of a disc. */
  method FillRow(info: Info, buf: array<Byte>, cx: int, cy: int, r: int, rgb: Rgb, y: nat)
    requires Usable(info) && buf.Length == info.byteLen && y < info.height && 0 <= r
    modifies buf
    ensures forall b :: 0 <= b < buf.Length ==>
      buf[b] == if Row(info, b) == y then Painted(info, cx, cy, r, rgb, b, old(buf[b])) else old(buf[b])
  {
    hide Column, Row, ChannelOf, Channel, InDisc, Offset, Usable;
    ghost var start := buf[..];
    var dy := y - cy;
    var x, x1 := Max(cx - r, 0), Min(cx + r, info.width - 1);
    RowBegins(info, buf[..], cx, cy, r, rgb, y, x);
    while x <= x1
      invariant Max(cx - r, 0) <= x
      invariant RowDone(info, start, buf[..], cx, cy, r, rgb, y, x)
    {
      var dx := x - cx;
      DiscTest(cx, cy, r, x, y);
      if dx * dx + dy * dy <= r * r {
        ghost var before := buf[..];
        OffsetFits(info, x, y);
        UsableBytes(info);
        WritePixel(buf, Offset(info, x, y), info.fmt, rgb);
        PixelPainted(info, start, before, buf[..], cx, cy, r, rgb, y, x);
      } else {
        PixelSkipped(info, start, buf[..], cx, cy, r, rgb, y, x);
      }
      x := x + 1;
    }
    RowEnds(info, start, buf[..], cx, cy, r, rgb, y, x);
  }

  lemma DiscTest(cx: int, cy: int, r: int, x: int, y: int)
    ensures InDisc(cx, cy, r, x, y) <==> 0 <= r && (x - cx) * (x - cx) + (y - cy) * (y - cy) <= r * r
  {
  }

  lemma UsableBytes(info: Info)
    requires Usable(info)
    ensures 0 < info.bpp && 0 < info.stride && Channels(info.fmt) <= info.bpp && info.width <= info.stride
  {
  }

  /** The pixels of row `y` before column `x` are painted, and nothing else has changed since `start`. */
  ghost predicate RowDone(info: Info, start: seq<Byte>, now: seq<Byte>,
                          cx: int, cy: int, r: int, rgb: Rgb, y: nat, x: nat)
  {
    && 0 < info.bpp && 0 < info.stride && |now| == |start|
    && forall b :: 0 <= b < |now| ==>
         now[b] == if Row(info, b) == y && Column(info, b) < x then Painted(info, cx, cy, r, rgb, b, start[b])
                   else start[b]
  }

  lemma RowBegins(info: Info, start: seq<Byte>, cx: int, cy: int, r: int, rgb: Rgb, y: nat, x: nat)
    requires Usable(info) && x == Max(cx - r, 0)
    ensures RowDone(info, start, start, cx, cy, r, rgb, y, x)
  {
    hide Column, Row, ChannelOf, Channel, InDisc;
    forall b | 0 <= b < |start| && Column(info, b) < x ensures !Hit(info, cx, cy, r, b) {
      if InDisc(cx, cy, r, Column(info, b), Row(info, b)) {
        DiscWithin(cx, cy, r, Column(info, b), Row(info, b));
      }
    }
  }

  lemma RowEnds(info: Info, start: seq<Byte>, now: seq<Byte>, cx: int, cy: int, r: int, rgb: Rgb, y: nat, x: nat)
    requires RowDone(info, start, now, cx, cy, r, rgb, y, x) && x > Min(cx + r, info.width - 1)
    ensures forall b :: 0 <= b < |now| ==>
      now[b] == if Row(info, b) == y then Painted(info, cx, cy, r, rgb, b, start[b]) else start[b]
  {
    hide Column, Row, ChannelOf, Channel, InDisc;
    forall b | 0 <= b < |start| && Column(info, b) >= x ensures !Hit(info, cx, cy, r, b) {
      if InDisc(cx, cy, r, Column(info, b), Row(info, b)) {
        DiscWithin(cx, cy, r, Column(info, b), Row(info, b));
      }
    }
  }

  lemma PixelPainted(info: Info, start: seq<Byte>, before: seq<Byte>, now: seq<Byte>,
                     cx: int, cy: int, r: int, rgb: Rgb, y: nat, x: nat)
    requires RowDone(info, start, before, cx, cy, r, rgb, y, x)
    requires x < info.width <= info.stride && y < info.height && Channels(info.fmt) <= info.bpp
    requires InDisc(cx, cy, r, x, y) && |now| == |before|
    requires var off := Offset(info, x, y);
      forall b :: 0 <= b < |now| ==>
        now[b] == if off <= b < off + Channels(info.fmt) then Channel(info.fmt, rgb, b - off) else before[b]
    ensures RowDone(info, start, now, cx, cy, r, rgb, y, x + 1)
  {
    hide Column, Row, ChannelOf, Channel, InDisc, Offset;
    forall b | 0 <= b < |now|
      ensures now[b] == if Row(info, b) == y && Column(info, b) < x + 1
                        then Painted(info, cx, cy, r, rgb, b, start[b]) else start[b]
    {
      BytesAt(info, x, y, b);
    }
  }

  lemma PixelSkipped(info: Info, start: seq<Byte>, now: seq<Byte>, cx: int, cy: int, r: int, rgb: Rgb, y: nat, x: nat)
    requires RowDone(info, start, now, cx, cy, r, rgb, y, x) && !InDisc(cx, cy, r, x, y)
    ensures RowDone(info, start, now, cx, cy, r, rgb, y, x + 1)
  {
    hide Column, Row, ChannelOf, Channel, InDisc;
  }

  /**
   Painting a disc changes exactly the colour bytes of the on-screen pixels with
   dx * dx + dy * dy <= r * r, for every centre and radius, and leaves every other byte alone.
   */
  method FillCircle(info: Info, buf: array<Byte>, cx: int, cy: int, r: int, rgb: Rgb)
    requires Usable(info) && buf.Length == info.byteLen
    modifies buf
    ensures forall b :: 0 <= b < buf.Length ==> buf[b] == Painted(info, cx, cy, r, rgb, b, old(buf[b]))
  {
    hide Column, Row, ChannelOf, Channel, InDisc, Usable;
    UsableBytes(info);
    ghost var start := buf[..];
    var y, y1 := Max(cy - r, 0), Min(cy + r, info.height - 1);
    RowsOutside(info, cx, cy, r);
    while y <= y1
      invariant Max(cy - r, 0) <= y
      invariant forall b :: 0 <= b < buf.Length ==>
        buf[b] == if Row(info, b) < y then Painted(info, cx, cy, r, rgb, b, start[b]) else start[b]
    {
      FillRow(info, buf, cx, cy, r, rgb, y);
      y := y + 1;
    }
  }

  lemma RowsOutside(info: Info, cx: int, cy: int, r: int)
    requires 0 < info.bpp && 0 < info.stride
    ensures forall b: nat :: Row(info, b) < Max(cy - r, 0) || Row(info, b) > Min(cy + r, info.height - 1) ==>
      !Hit(info, cx, cy, r, b)
  {
    hide Column, Row, ChannelOf, InDisc;
    forall b: nat | Row(info, b) < Max(cy - r, 0) || Row(info, b) > Min(cy + r, info.height - 1)
      ensures !Hit(info, cx, cy, r, b)
    {
      if InDisc(cx, cy, r, Column(info, b), Row(info, b)) {
        DiscWithin(cx, cy, r, Column(info, b), Row(info, b));
      }
    }
  }

  // --- the mark ----------------------------------------------------------------------------

  datatype Layout = Layout(cx: int, gap: int, cy: int, r: int)

  function LayoutOf(info: Info): Layout {
    var r := info.height / 12;
    Layout(info.width / 2, r * 13 / 5, info.height / 2, r)
  }

  /** The mark is centred on the screen, its radius a twelfth of the height and its gap 2.6 radii, rounded down. */
  lemma LayoutMeasures(info: Info)
    ensures var l := LayoutOf(info);
      && 2 * l.cx <= info.width < 2 * l.cx + 2 && 2 * l.cy <= info.height < 2 * l.cy + 2
      && 12 * l.r <= info.height < 12 * l.r + 12 && 5 * l.gap <= 13 * l.r < 5 * l.gap + 5
      && Center(l, 1) == l.cx && Center(l, 1) - Center(l, 0) == l.gap && Center(l, 2) - Center(l, 1) == l.gap
  {
  }

  /** The centre of bubble `i`: one gap left of the middle, the middle, one gap right of it. */
  function Center(l: Layout, i: nat): int
    requires i < 3
  {
    if i == 0 then l.cx - l.gap else if i == 1 then l.cx else l.cx + l.gap
  }

  ghost predicate BubblesApart(l: Layout) {
    forall i, j, x, y :: 0 <= i < j < 3 ==>
      !(InDisc(Center(l, i), l.cy, l.r, x, y) && InDisc(Center(l, j), l.cy, l.r, x, y))
  }

  /** The three bubbles share no point exactly when the screen is at least 24 rows high. */
  lemma BubblesApartIff(info: Info)
    ensures BubblesApart(LayoutOf(info)) <==> info.height >= 24
  {
    var l := LayoutOf(info);
    if info.height >= 24 {
      hide InDisc;
      forall i, j, x, y | 0 <= i < j < 3
        ensures !(InDisc(Center(l, i), l.cy, l.r, x, y) && InDisc(Center(l, j), l.cy, l.r, x, y))
      {
        if InDisc(Center(l, i), l.cy, l.r, x, y) && InDisc(Center(l, j), l.cy, l.r, x, y) {
          DiscWithin(Center(l, i), l.cy, l.r, x, y);
          DiscWithin(Center(l, j), l.cy, l.r, x, y);
        }
      }
    } else {
      var x := if l.r == 0 then l.cx else l.cx - 1;
      assert l.r == 0 || (l.r == 1 && l.gap == 2);
      assert InDisc(Center(l, 0), l.cy, l.r, x, l.cy) && InDisc(Center(l, 1), l.cy, l.r, x, l.cy);
    }
  }

  /** Byte `b` after the first `i` bubbles are drawn over `was`. */
  function Drawn(info: Info, lead: nat, i: nat, b: nat, was: Byte): Byte
    requires 0 < info.bpp && 0 < info.stride && lead < 3 && i <= 3
  {
    if i == 0 then was
    else
      var l := LayoutOf(info);
      Painted(info, Center(l, i - 1), l.cy, l.r, Shade(i - 1, lead), b, Drawn(info, lead, i - 1, b, was))
  }

  method Draw(info: Info, buf: array<Byte>, l: Layout, lead: nat)
    requires Usable(info) && buf.Length == info.byteLen && l == LayoutOf(info) && lead < 3
    modifies buf
    ensures forall b :: 0 <= b < buf.Length ==> buf[b] == Drawn(info, lead, 3, b, old(buf[b]))
  {
    hide Painted, LayoutOf, Usable;
    UsableBytes(info);
    var i := 0;
    while i < 3
      invariant 0 <= i <= 3
      invariant forall b :: 0 <= b < buf.Length ==> buf[b] == Drawn(info, lead, i, b, old(buf[b]))
    {
      var rgb := Blend(BUILD_ACID, HARDCORE_BLACK, Stagger(StepOf(i, lead)));
      FillCircle(info, buf, Center(l, i), l.cy, l.r, rgb);
      i := i + 1;
    }
  }

  ghost predicate HitAny(info: Info, i: nat, b: nat)
    requires 0 < info.bpp && 0 < info.stride && i <= 3
  {
    var l := LayoutOf(info);
    exists j :: 0 <= j < i && Hit(info, Center(l, j), l.cy, l.r, b)
  }

  /** A byte that some bubble covers forgets its value; any other keeps it. */
  lemma {:induction false} CoveredForgets(info: Info, lead: nat, i: nat, b: nat, was: Byte, was': Byte)
    requires 0 < info.bpp && 0 < info.stride && lead < 3 && i <= 3
    ensures if HitAny(info, i, b) then Drawn(info, lead, i, b, was) == Drawn(info, lead, i, b, was')
            else Drawn(info, lead, i, b, was) == was
  {
    hide Hit, LayoutOf, Center, Channel, Shade;
    if i > 0 {
      CoveredForgets(info, lead, i - 1, b, was, was');
    }
  }

  /** Redrawing over an earlier frame gives what drawing on the canvas before it would have given. */
  lemma DrawForgetsEarlierFrames(info: Info, lead: nat, lead': nat, b: nat, was: Byte)
    requires 0 < info.bpp && 0 < info.stride && lead < 3 && lead' < 3
    ensures Drawn(info, lead', 3, b, Drawn(info, lead, 3, b, was)) == Drawn(info, lead', 3, b, was)
  {
    hide Drawn, HitAny;
    CoveredForgets(info, lead, 3, b, was, was);
    CoveredForgets(info, lead', 3, b, Drawn(info, lead, 3, b, was), was);
  }

  /** Byte `b` after drawing the frames with the given leaders one over the other. */
  function DrawnAll(info: Info, leads: seq<nat>, b: nat, was: Byte): Byte
    requires 0 < info.bpp && 0 < info.stride && forall i :: 0 <= i < |leads| ==> leads[i] < 3
  {
    if leads == [] then was
    else Drawn(info, leads[|leads| - 1], 3, b, DrawnAll(info, leads[..|leads| - 1], b, was))
  }

  /** Rendering is independent of history: only the last frame shows. */
  lemma {:induction false} OnlyTheLastFrameShows(info: Info, leads: seq<nat>, b: nat, was: Byte)
    requires 0 < info.bpp && 0 < info.stride && forall i :: 0 <= i < |leads| ==> leads[i] < 3
    requires leads != []
    ensures DrawnAll(info, leads, b, was) == Drawn(info, leads[|leads| - 1], 3, b, was)
  {
    hide Drawn;
    var front := leads[..|leads| - 1];
    if front != [] {
      OnlyTheLastFrameShows(info, front, b, was);
      DrawForgetsEarlierFrames(info, front[|front| - 1], leads[|leads| - 1], b, was);
    }
  }

  // --- presenting ----------------------------------------------------------------------------

  /** Copy rows `y0..=y1` of the back buffer to the screen. */
  method PresentRows(info: Info, buf: array<Byte>, fb: array<Byte>, y0: nat, y1: nat)
    requires Usable(info) && buf.Length == info.byteLen && fb.Length == info.byteLen && buf != fb
    requires y0 <= y1 < info.height
    modifies fb
    ensures forall b :: 0 <= b < fb.Length ==> fb[b] == if y0 <= Row(info, b) <= y1 then buf[b] else old(fb[b])
  {
    hide Row;
    var rowBytes := info.stride * info.bpp;
    var start, end := y0 * rowBytes, (y1 + 1) * rowBytes;
    Scaled(rowBytes, y0, y1 + 1);
    Scaled(rowBytes, y1 + 1, info.height);
    forall b | start <= b < end {
      fb[b] := buf[b];
    }
    forall b | 0 <= b < fb.Length ensures fb[b] == if y0 <= Row(info, b) <= y1 then buf[b] else old(fb[b]) {
      RowBytes(info, y0, b);
      RowBytes(info, y1 + 1, b);
    }
  }

  /** What a colour byte shows when the whole screen is cleared and drawn once. */
  function SceneByte(info: Info, lead: nat, b: nat): Byte
    requires 0 < info.bpp && 0 < info.stride && lead < 3
  {
    Drawn(info, lead, 3, b, Channel(info.fmt, HARDCORE_BLACK, ChannelOf(info, b)))
  }

  /** The colour of a point: the last bubble that covers it, or the background. */
  function ColourAt(info: Info, lead: nat, x: int, y: int): Rgb
    requires lead < 3
  {
    var l := LayoutOf(info);
    if InDisc(Center(l, 2), l.cy, l.r, x, y) then Shade(2, lead)
    else if InDisc(Center(l, 1), l.cy, l.r, x, y) then Shade(1, lead)
    else if InDisc(Center(l, 0), l.cy, l.r, x, y) then Shade(0, lead)
    else HARDCORE_BLACK
  }

  /** Pixel by pixel: an on-screen pixel shows the colour of its point, and the padding the background. */
  lemma SceneShowsTheMark(info: Info, lead: nat, b: nat)
    requires Usable(info) && lead < 3 && Colours(info, b)
    ensures var x, y := Column(info, b), Row(info, b);
      var colour := if x < info.width && y < info.height then ColourAt(info, lead, x, y) else HARDCORE_BLACK;
      SceneByte(info, lead, b) == Channel(info.fmt, colour, ChannelOf(info, b))
  {
    hide InDisc, Shade, LayoutOf, Center, Channel, Column, Row, ChannelOf;
    var black := Channel(info.fmt, HARDCORE_BLACK, ChannelOf(info, b));
    assert Drawn(info, lead, 0, b, black) == black;
    DrawnStep(info, lead, 1, b, black);
    DrawnStep(info, lead, 2, b, black);
    DrawnStep(info, lead, 3, b, black);
  }

  lemma DrawnStep(info: Info, lead: nat, i: nat, b: nat, was: Byte)
    requires 0 < info.bpp && 0 < info.stride && lead < 3 && 1 <= i <= 3
    ensures var l := LayoutOf(info);
      Drawn(info, lead, i, b, was) ==
      Painted(info, Center(l, i - 1), l.cy, l.r, Shade(i - 1, lead), b, Drawn(info, lead, i - 1, b, was))
  {
  }

  function LeadAt(tick: nat): nat {
    tick / 12 % 3
  }

  /** The leader walks left to right, one bubble every 12 ticks. */
  lemma LeaderWalksRight(tick: nat, round: nat, i: nat)
    requires i < 3 && 36 * round + 12 * i <= tick < 36 * round + 12 * i + 12
    ensures LeadAt(tick) == i
  {
    assert tick / 12 == 3 * round + i;
  }

  /**
   What can be seen: on an on-screen pixel that only bubble `i` covers, full acid green if `i` leads;
   on one that no bubble covers, the black background.
   */
  lemma LeaderIsGreenOnBlack(info: Info, lead: nat, b: nat, i: nat)
    requires Usable(info) && lead < 3 && Colours(info, b) && i < 3
    requires Column(info, b) < info.width && Row(info, b) < info.height
    requires var l := LayoutOf(info); var x, y := Column(info, b), Row(info, b);
      forall j :: 0 <= j < 3 && j != i ==> !InDisc(Center(l, j), l.cy, l.r, x, y)
    ensures var l := LayoutOf(info); var x, y := Column(info, b), Row(info, b);
      if !InDisc(Center(l, i), l.cy, l.r, x, y)
      then SceneByte(info, lead, b) == Channel(info.fmt, Rgb(0x0E, 0x0E, 0x10), ChannelOf(info, b))
      else i == lead ==> SceneByte(info, lead, b) == Channel(info.fmt, Rgb(0xD6, 0xFF, 0x3F), ChannelOf(info, b))
  {
    hide InDisc, Shade, LayoutOf, Center, Channel, Column, Row, ChannelOf, SceneByte;
    SceneShowsTheMark(info, lead, b);
    ShadesInNumbers(lead);
  }

  /** What full clearing, drawing and presenting would show after the last tick count observed. */
  function ExpectedByte(info: Info, ticks: seq<nat>, b: nat): Byte
    requires 0 < info.bpp && 0 < info.stride
  {
    if ticks == [] then Channel(info.fmt, HARDCORE_BLACK, ChannelOf(info, b))
    else SceneByte(info, LeadAt(ticks[|ticks| - 1]), b)
  }

  /** The screen shows the back buffer on every colour byte. */
  ghost predicate Shown(info: Info, fb: seq<Byte>, canvas: seq<Byte>)
    requires 0 < info.bpp
  {
    |fb| == |canvas| && forall b :: 0 <= b < |fb| && Colours(info, b) ==> fb[b] == canvas[b]
  }

  lemma DrawStaysInBand(info: Info, lead: nat, b: nat, was: Byte)
    requires 0 < info.bpp && 0 < info.stride && lead < 3
    requires var l := LayoutOf(info);
      Row(info, b) < Max(l.cy - l.r, 0) || Row(info, b) > Min(l.cy + l.r, info.height - 1)
    ensures Drawn(info, lead, 3, b, was) == was
  {
    hide Drawn, Hit, LayoutOf, Row;
    var l := LayoutOf(info);
    RowsOutside(info, Center(l, 0), l.cy, l.r);
    RowsOutside(info, Center(l, 1), l.cy, l.r);
    RowsOutside(info, Center(l, 2), l.cy, l.r);
    assert forall j :: 0 <= j < 3 ==> !Hit(info, Center(l, j), l.cy, l.r, b);
    CoveredForgets(info, lead, 3, b, was, was);
  }

  /** Draw a frame and present the band the bubbles occupy. */
  method Frame(info: Info, canvas: array<Byte>, fb: array<Byte>, lead: nat, band0: nat, band1: nat)
    requires Usable(info) && canvas.Length == info.byteLen && fb.Length == info.byteLen && canvas != fb && lead < 3
    requires var l := LayoutOf(info); band0 == Max(l.cy - l.r, 0) && band1 == Min(l.cy + l.r, info.height - 1)
    requires Shown(info, fb[..], canvas[..])
    modifies canvas, fb
    ensures forall b :: 0 <= b < canvas.Length ==> canvas[b] == Drawn(info, lead, 3, b, old(canvas[b]))
    ensures Shown(info, fb[..], canvas[..])
  {
    hide Drawn, Row, Colours;
    UsableBytes(info);
    Draw(info, canvas, LayoutOf(info), lead);
    PresentRows(info, canvas, fb, band0, band1);
    forall b | 0 <= b < fb.Length && Colours(info, b) ensures fb[b] == canvas[b] {
      if !(band0 <= Row(info, b) <= band1) {
        DrawStaysInBand(info, lead, b, old(canvas[b]));
        assert old(fb[..])[b] == old(canvas[..])[b];
      }
    }
  }

  const NO_FRAME := 0xFFFF_FFFF_FFFF_FFFF

  /**
   The render loop over the tick counts it observes, any finite number of rounds. The screen starts
   cleared. After every round the screen shows the back buffer on every colour byte, although only
   the band is copied, and the back buffer shows what clearing and drawing once would.
   */
  method Run(info: Info, fb: array<Byte>, ticks: seq<nat>) returns (canvas: array<Byte>)
    requires Usable(info) && fb.Length == info.byteLen
    requires forall b :: 0 <= b < fb.Length && Colours(info, b) ==>
      fb[b] == Channel(info.fmt, HARDCORE_BLACK, ChannelOf(info, b))
    requires forall i :: 0 <= i < |ticks| ==> ticks[i] <= 0xFFFF_FFFF_FFFF_FFFF
    modifies fb
    ensures fresh(canvas) && canvas.Length == info.byteLen
    ensures Shown(info, fb[..], canvas[..])
    ensures forall b :: 0 <= b < fb.Length && Colours(info, b) ==> fb[b] == ExpectedByte(info, ticks, b)
  {
    hide Drawn, Row, ChannelOf, PixelOf, Channel, Channels, LayoutOf, Usable;
    UsableBytes(info);
    canvas := new Byte[info.byteLen](i => 0);
    Clear(info, canvas, HARDCORE_BLACK);
    ghost var base := canvas[..];
    var l := LayoutOf(info);
    BandIsOnScreen(info);
    var band0, band1 := Max(l.cy - l.r, 0), Min(l.cy + l.r, info.height - 1);
    var last, k := NO_FRAME, 0;
    while k < |ticks|
      invariant 0 <= k <= |ticks|
      invariant k == 0 ==> last == NO_FRAME && canvas[..] == base
      invariant k > 0 ==> last == ticks[k - 1] / 12
      invariant k > 0 ==> forall b :: 0 <= b < canvas.Length ==> canvas[b] == Drawn(info, last % 3, 3, b, base[b])
      invariant Shown(info, fb[..], canvas[..])
    {
      var frame := ticks[k] / 12;
      if frame != last {
        ghost var before := canvas[..];
        Frame(info, canvas, fb, frame % 3, band0, band1);
        forall b | 0 <= b < canvas.Length ensures canvas[b] == Drawn(info, frame % 3, 3, b, base[b]) {
          if k > 0 {
            assert before[b] == Drawn(info, last % 3, 3, b, base[b]);
            DrawForgetsEarlierFrames(info, last % 3, frame % 3, b, base[b]);
          }
        }
        last := frame;
      }
      k := k + 1;
    }
  }

  lemma BandIsOnScreen(info: Info)
    requires Usable(info)
    ensures var l := LayoutOf(info);
      0 <= Max(l.cy - l.r, 0) <= Min(l.cy + l.r, info.height - 1) < info.height
  {
  }

  /** The kernel's order: clear the screen at boot, then run the animation. */
  method Animate(info: Info, fb: array<Byte>, ticks: seq<nat>)
    requires Usable(info) && fb.Length == info.byteLen
    requires forall i :: 0 <= i < |ticks| ==> ticks[i] <= 0xFFFF_FFFF_FFFF_FFFF
    modifies fb
    ensures forall b :: 0 <= b < fb.Length && Colours(info, b) ==> fb[b] == ExpectedByte(info, ticks, b)
  {
    hide Drawn, ExpectedByte, ChannelOf, Channel, Usable;
    UsableBytes(info);
    Clear(info, fb, HARDCORE_BLACK);
    var canvas := Run(info, fb, ticks);
  }
}

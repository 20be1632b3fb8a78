/**
 Linear framebuffers byte by byte (kernel/src/framebuffer.rs): which pixel a byte belongs to, and
 what clearing does to it.
 */
module Pixels {
  import opened Bits

  type Byte = b: nat | b < 256

  datatype Rgb = Rgb(r: Byte, g: Byte, b: Byte)

  const HARDCORE_BLACK := Rgb(0x0E, 0x0E, 0x10)
  const BUILD_ACID := Rgb(0xD6, 0xFF, 0x3F)

  datatype Format = RgbFormat | BgrFormat | U8Format | OtherFormat

  datatype Info = Info(byteLen: nat, width: nat, height: nat, stride: nat, bpp: nat, fmt: Format)

  /** How many bytes of a pixel carry its colour. */
  function Channels(fmt: Format): nat {
    if fmt == U8Format then 1 else 3
  }

  /** Byte `c` of a pixel of the given colour. */
  function Channel(fmt: Format, rgb: Rgb, c: nat): Byte {
    match fmt
    case RgbFormat => if c == 0 then rgb.r else if c == 1 then rgb.g else rgb.b
    case U8Format => (rgb.r * 54 + rgb.g * 183 + rgb.b * 19) / 256
    case _ => if c == 0 then rgb.b else if c == 1 then rgb.g else rgb.r
  }

  /** What the kernel needs of a framebuffer to index it without a panic. */
  ghost predicate Usable(info: Info) {
    && Channels(info.fmt) <= info.bpp
    && 1 <= info.width <= info.stride && 1 <= info.height
    && info.height * (info.stride * info.bpp) <= info.byteLen
  }

  // --- bytes and pixels ----------------------------------------------------------------

  function PixelOf(info: Info, b: nat): nat
    requires 0 < info.bpp
  {
    b / info.bpp
  }

  function ChannelOf(info: Info, b: nat): nat
    requires 0 < info.bpp
  {
    b % info.bpp
  }

  function Column(info: Info, b: nat): nat
    requires 0 < info.bpp && 0 < info.stride
  {
    PixelOf(info, b) % info.stride
  }

  function Row(info: Info, b: nat): nat
    requires 0 < info.bpp && 0 < info.stride
  {
    PixelOf(info, b) / info.stride
  }

  /** Where the pixel at column `x` of row `y` starts. */
  function Offset(info: Info, x: nat, y: nat): nat {
    (y * info.stride + x) * info.bpp
  }

  lemma PixelBytes(info: Info, n: nat, b: nat)
    requires 0 < info.bpp
    ensures n * info.bpp <= b < n * info.bpp + info.bpp <==> PixelOf(info, b) == n
    ensures PixelOf(info, b) == n ==> ChannelOf(info, b) == b - n * info.bpp
  {
    if n * info.bpp <= b < n * info.bpp + info.bpp {
      RemainderIs(b, info.bpp, n, b - n * info.bpp);
    }
  }

  /** The bytes of the pixel at `(x, y)` are the `bpp` bytes from its offset on. */
  lemma BytesAt(info: Info, x: nat, y: nat, b: nat)
    requires 0 < info.bpp && x < info.stride
    ensures Offset(info, x, y) <= b < Offset(info, x, y) + info.bpp <==> Column(info, b) == x && Row(info, b) == y
    ensures Column(info, b) == x && Row(info, b) == y ==> ChannelOf(info, b) == b - Offset(info, x, y)
  {
    var n := y * info.stride + x;
    PixelBytes(info, n, b);
    RemainderIs(n, info.stride, y, x);
    var p := PixelOf(info, b);
    assert p == info.stride * Row(info, b) + Column(info, b);
  }

  /** Multiplication by a natural is monotone. */
  lemma Monotone(d: nat, a: nat, b: nat)
    requires a <= b
    ensures d * a <= d * b
  {
    NonNegative(d, b - a);
    assert d * b == d * a + d * (b - a);
  }

  lemma NonNegative(d: nat, t: nat)
    ensures d * t >= 0
  {
  }

  /** Of a byte in row `q`, column `x` and channel `c`: rows up to `q` start at or before it, later ones after it. */
  lemma RowStarts(s: nat, n: nat, q: nat, x: nat, c: nat, y: nat)
    requires x < s && c < n
    ensures y <= q ==> n * (s * y) <= n * (s * q + x) + c
    ensures q < y ==> n * (s * q + x) + c < n * (s * y)
  {
    if y <= q {
      Monotone(s, y, q);
      Monotone(n, s * y, s * q + x);
    } else {
      Monotone(s, q + 1, y);
      assert s * (q + 1) == s * q + s;
      Monotone(n, s * q + x + 1, s * y);
      assert n * (s * q + x + 1) == n * (s * q + x) + n;
    }
  }

  lemma Regroup(y: nat, s: nat, n: nat)
    ensures y * (s * n) == n * (s * y)
  {
    assert y * (s * n) == (y * s) * n;
  }

  /** Rows are contiguous: byte `b` is in row `y` or later exactly when it is not before the start of row `y`. */
  lemma RowBytes(info: Info, y: nat, b: nat)
    requires 0 < info.bpp && 0 < info.stride
    ensures y * (info.stride * info.bpp) <= b <==> y <= Row(info, b)
  {
    var s, n := info.stride, info.bpp;
    assert b == n * PixelOf(info, b) + ChannelOf(info, b);
    assert PixelOf(info, b) == s * Row(info, b) + Column(info, b);
    hide Row, Column, PixelOf, ChannelOf;
    RowStarts(s, n, Row(info, b), Column(info, b), ChannelOf(info, b), y);
    Regroup(y, s, n);
  }

  /** On-screen pixels lie within the buffer. */
  lemma OffsetFits(info: Info, x: nat, y: nat)
    requires Usable(info) && x < info.width && y < info.height
    ensures Offset(info, x, y) + info.bpp <= info.byteLen
  {
    var s, n := info.stride, info.bpp;
    var p := y * s + x;
    Monotone(s, y + 1, info.height);
    assert s * (y + 1) == y * s + s;
    Monotone(n, p + 1, s * info.height);
    assert n * (p + 1) == p * n + n;
    Regroup(info.height, s, n);
  }

  // --- writing ---------------------------------------------------------------------------

  method WritePixel(buf: array<Byte>, off: nat, fmt: Format, rgb: Rgb)
    requires off + Channels(fmt) <= buf.Length
    modifies buf
    ensures forall b :: 0 <= b < buf.Length ==>
      buf[b] == if off <= b < off + Channels(fmt) then Channel(fmt, rgb, b - off) else old(buf[b])
    ensures fmt == RgbFormat ==> buf[off] == rgb.r && buf[off + 1] == rgb.g && buf[off + 2] == rgb.b
    ensures fmt == BgrFormat || fmt == OtherFormat ==>
      buf[off] == rgb.b && buf[off + 1] == rgb.g && buf[off + 2] == rgb.r
    ensures fmt == U8Format ==>
      0 <= (54 * rgb.r as int + 183 * rgb.g as int + 19 * rgb.b as int) - 256 * buf[off] as int < 256
    ensures forall b :: 0 <= b < buf.Length && (b < off || off + 3 <= b || (fmt == U8Format && off < b)) ==>
      buf[b] == old(buf[b])
  {
    match fmt
    case RgbFormat =>
      buf[off] := rgb.r;
      buf[off + 1] := rgb.g;
      buf[off + 2] := rgb.b;
    case U8Format =>
      buf[off] := (rgb.r * 54 + rgb.g * 183 + rgb.b * 19) / 256;
    case _ =>
      buf[off] := rgb.b;
      buf[off + 1] := rgb.g;
      buf[off + 2] := rgb.r;
  }

  /** Is `b` a colour byte of a whole pixel? */
  predicate Colours(info: Info, b: nat)
    requires 0 < info.bpp
  {
    ChannelOf(info, b) < Channels(info.fmt) && PixelOf(info, b) < info.byteLen / info.bpp
  }

  /** That is: its pixel lies wholly within the buffer, and it is one of the first `Channels` bytes of it. */
  lemma ColoursWholePixels(info: Info, b: nat)
    requires 0 < info.bpp
    ensures Colours(info, b) <==> b % info.bpp < Channels(info.fmt) && b - b % info.bpp + info.bpp <= info.byteLen
  {
    var n, q := b / info.bpp, info.byteLen / info.bpp;
    assert b == info.bpp * n + b % info.bpp && info.byteLen == info.bpp * q + info.byteLen % info.bpp;
    if n < q {
      ChunkFits(info, n);
    } else {
      Monotone(info.bpp, q, n);
    }
  }

  /** Clearing sets the colour bytes of every whole pixel and leaves every other byte alone. */
  ghost predicate ClearedFrom(info: Info, before: seq<Byte>, after: seq<Byte>, rgb: Rgb)
    requires 0 < info.bpp
  {
    && |after| == |before|
    && forall b :: 0 <= b < |after| ==>
         after[b] == if Colours(info, b) then Channel(info.fmt, rgb, ChannelOf(info, b)) else before[b]
  }

  method Clear(info: Info, buf: array<Byte>, rgb: Rgb)
    requires Channels(info.fmt) <= info.bpp && buf.Length == info.byteLen
    modifies buf
    ensures ClearedFrom(info, old(buf[..]), buf[..], rgb)
  {
    hide PixelOf, ChannelOf, Channel;
    var chunks := info.byteLen / info.bpp;
    var n := 0;
    while n < chunks
      invariant 0 <= n <= chunks
      invariant forall b :: 0 <= b < buf.Length ==>
        buf[b] == if Colours(info, b) && PixelOf(info, b) < n then Channel(info.fmt, rgb, ChannelOf(info, b))
                  else old(buf[b])
    {
      ghost var before := buf[..];
      ChunkFits(info, n);
      WritePixel(buf, n * info.bpp, info.fmt, rgb);
      forall b | 0 <= b < buf.Length
        ensures buf[b] == if Colours(info, b) && PixelOf(info, b) < n + 1
                          then Channel(info.fmt, rgb, ChannelOf(info, b)) else old(buf[b])
      {
        PixelBytes(info, n, b);
        var off := n * info.bpp;
        assert buf[b] == if off <= b < off + Channels(info.fmt) then Channel(info.fmt, rgb, b - off) else before[b];
      }
      n := n + 1;
    }
  }

  lemma ChunkFits(info: Info, n: nat)
    requires 0 < info.bpp && n < info.byteLen / info.bpp
    ensures n * info.bpp + info.bpp <= info.byteLen
  {
    var q := info.byteLen / info.bpp;
    Monotone(info.bpp, n + 1, q);
    assert info.bpp * (n + 1) == n * info.bpp + info.bpp;
    assert info.bpp * q <= info.byteLen;
  }
}

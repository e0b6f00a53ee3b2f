/** The screen sampler of the Windows back end: reading a pixel as a COLORREF,
    formatting it as `#RRGGBB`, finding the monitor under the cursor, the
    zoom-preview crop, the premultiplied cursor bitmap and the flag that
    records whether the system cursor was replaced.

    The operating system appears only through parameters: the cursor position,
    the pixel read under it, the monitor list, the captured and encoded crop,
    and whether each Win32 call behind the custom cursor succeeds. */
module ColorPicker {
  import opened Types

  // ---------------------------------------------------------------------
  // COLORREF decoding
  // ---------------------------------------------------------------------

  /** The value `GetPixel` returns when it cannot read the pixel. */
  const CLR_INVALID: uint32 := 0xFFFF_FFFF

  /** What `GetDC` and `GetPixel` give for one screen position. */
  datatype PixelRead = NoDeviceContext | Pixel(colorref: uint32)

  /** The Win32 `RGB(r, g, b)` packing: the reference encoding that
      DecodeColorRef inverts. */
  function PackColorRef(c: Rgb): (v: uint32)
    ensures v < 0x100_0000
  {
    c.r + 0x100 * c.g + 0x1_0000 * c.b
  }

  /** A COLORREF holds red in byte 0, green in byte 1 and blue in byte 2;
      `v & 0xFF` and `(v >> 8) & 0xFF` on an unsigned value are `v % 256` and
      `(v / 256) % 256`. Decoding keeps exactly the low 24 bits: re-packing
      the colour gives them back, and bits 24 to 31 are ignored. */
  function DecodeColorRef(v: uint32): (c: Rgb)
    ensures PackColorRef(c) == v % 0x100_0000
  {
    var r1, q1 := v % 0x100, v / 0x100;
    var r2, q2 := q1 % 0x100, q1 / 0x100;
    var r3, q3 := q2 % 0x100, q2 / 0x100;
    assert v == r1 + 0x100 * r2 + 0x1_0000 * q2;
    assert v / 0x1_0000 == q2 by {
      assert 0x1_0000 * q2 <= v < 0x1_0000 * q2 + 0x1_0000;
    }
    var low := r1 + 0x100 * r2 + 0x1_0000 * r3;
    assert v == low + 0x100_0000 * q3;
    assert v % 0x100_0000 == low by {
      assert 0 <= low < 0x100_0000;
    }
    Rgb(v % 0x100, (v / 0x100) % 0x100, (v / 0x1_0000) % 0x100)
  }

  /** Decoding a packed colour gives it back, whatever the byte above it holds. */
  lemma DecodePackedColorRef(c: Rgb, high: nat)
    requires PackColorRef(c) + 0x100_0000 * high < 0x1_0000_0000
    ensures DecodeColorRef(PackColorRef(c) + 0x100_0000 * high) == c
  {
    var v := PackColorRef(c) + 0x100_0000 * high;
    var q1, q2 := c.g + 0x100 * c.b + 0x1_0000 * high, c.b + 0x100 * high;
    assert v % 0x100 == c.r && v / 0x100 == q1 by {
      assert v == c.r + 0x100 * q1;
    }
    assert q1 % 0x100 == c.g by {
      assert q1 == c.g + 0x100 * q2;
    }
    assert v / 0x1_0000 == q2 by {
      assert v == (c.r + 0x100 * c.g) + 0x1_0000 * q2;
      assert 0x1_0000 * q2 <= v < 0x1_0000 * q2 + 0x1_0000;
    }
    assert q2 % 0x100 == c.b by {
      assert q2 == c.b + 0x100 * high;
    }
    assert (v / 0x100) % 0x100 == c.g && (v / 0x1_0000) % 0x100 == c.b;
  }

  /** `get_pixel_color`: no device context or a `CLR_INVALID` read is an
      error; any other value is decoded. */
  function GetPixelColor(read: PixelRead): (r: Result<Rgb>)
    ensures read.NoDeviceContext? ==> r == Err(DeviceContextUnavailable)
    ensures read.Pixel? && read.colorref == CLR_INVALID ==> r == Err(PixelColorUnavailable)
    ensures r.Ok? <==> read.Pixel? && read.colorref != CLR_INVALID
    ensures r.Ok? ==> PackColorRef(r.value) == read.colorref % 0x100_0000
  {
    match read
    case NoDeviceContext => Err(DeviceContextUnavailable)
    case Pixel(v) =>
      if v == CLR_INVALID then Err(PixelColorUnavailable)
      else Ok(DecodeColorRef(v))
  }

  /** No real colour, white included, is mistaken for the error value. */
  lemma EveryColorIsReadable(c: Rgb)
    ensures GetPixelColor(Pixel(PackColorRef(c))) == Ok(c)
  {
    DecodePackedColorRef(c, 0);
  }

  // ---------------------------------------------------------------------
  // `#RRGGBB` formatting (`format!("#{:02X}{:02X}{:02X}", r, g, b)`)
  // ---------------------------------------------------------------------

  predicate IsUpperHexDigit(ch: char)
  {
    '0' <= ch <= '9' || 'A' <= ch <= 'F'
  }

  function HexDigit(d: nat): (ch: char)
    requires d < 16
    ensures IsUpperHexDigit(ch)
  {
    if d < 10 then ('0' as int + d) as char else ('A' as int + (d - 10)) as char
  }

  function DigitValue(ch: char): (d: nat)
    requires IsUpperHexDigit(ch)
    ensures d < 16
  {
    if ch <= '9' then ch as int - '0' as int else ch as int - 'A' as int + 10
  }

  lemma DigitRoundTrip(d: nat, ch: char)
    requires d < 16 && IsUpperHexDigit(ch)
    ensures DigitValue(HexDigit(d)) == d
    ensures HexDigit(DigitValue(ch)) == ch
  {
  }

  /** `{:02X}`: two upper-case digits, most significant first. */
  function FormatByte(v: uint8): string
  {
    [HexDigit(v / 16), HexDigit(v % 16)]
  }

  /** `#` followed by six upper-case hexadecimal digits. */
  predicate IsCanonicalHex(s: string)
  {
    |s| == 7 && s[0] == '#' && forall i :: 1 <= i < 7 ==> IsUpperHexDigit(s[i])
  }

  function FormatHex(c: Rgb): (s: string)
    ensures IsCanonicalHex(s)
  {
    "#" + FormatByte(c.r) + FormatByte(c.g) + FormatByte(c.b)
  }

  function ParseByte(hi: char, lo: char): uint8
    requires IsUpperHexDigit(hi) && IsUpperHexDigit(lo)
  {
    DigitValue(hi) * 16 + DigitValue(lo)
  }

  /** The reading of a canonical hex string: the digit pairs as r, g, b. */
  function ParseHex(s: string): Option<Rgb>
  {
    if IsCanonicalHex(s) then
      assert IsUpperHexDigit(s[1]) && IsUpperHexDigit(s[2]) && IsUpperHexDigit(s[3]);
      assert IsUpperHexDigit(s[4]) && IsUpperHexDigit(s[5]) && IsUpperHexDigit(s[6]);
      Some(Rgb(ParseByte(s[1], s[2]), ParseByte(s[3], s[4]), ParseByte(s[5], s[6])))
    else None
  }

  lemma ByteRoundTrip(v: uint8)
    ensures ParseByte(FormatByte(v)[0], FormatByte(v)[1]) == v
  {
    DigitRoundTrip(v / 16, '0');
    DigitRoundTrip(v % 16, '0');
  }

  /** The digit pairs of the formatted string decode back to r, g and b. */
  lemma HexRoundTrip(c: Rgb)
    ensures ParseHex(FormatHex(c)) == Some(c)
  {
    var s := FormatHex(c);
    assert s[1..3] == FormatByte(c.r) && s[3..5] == FormatByte(c.g) && s[5..7] == FormatByte(c.b);
    ByteRoundTrip(c.r);
    ByteRoundTrip(c.g);
    ByteRoundTrip(c.b);
  }

  lemma PairRoundTrip(hi: char, lo: char)
    requires IsUpperHexDigit(hi) && IsUpperHexDigit(lo)
    ensures FormatByte(ParseByte(hi, lo)) == [hi, lo]
  {
    var d1, d0 := DigitValue(hi), DigitValue(lo);
    assert (d1 * 16 + d0) / 16 == d1 && (d1 * 16 + d0) % 16 == d0;
    DigitRoundTrip(0, hi);
    DigitRoundTrip(0, lo);
  }

  /** Every canonical string is the formatting of exactly the colour it reads
      as, so formatting is onto the canonical strings and injective. */
  lemma HexIsCanonical(s: string)
    requires IsCanonicalHex(s)
    ensures ParseHex(s).Some? && FormatHex(ParseHex(s).value) == s
  {
    assert IsUpperHexDigit(s[1]) && IsUpperHexDigit(s[2]) && IsUpperHexDigit(s[3]);
    assert IsUpperHexDigit(s[4]) && IsUpperHexDigit(s[5]) && IsUpperHexDigit(s[6]);
    PairRoundTrip(s[1], s[2]);
    PairRoundTrip(s[3], s[4]);
    PairRoundTrip(s[5], s[6]);
    assert s == "#" + [s[1], s[2]] + [s[3], s[4]] + [s[5], s[6]];
  }

  lemma FormatHexInjective(c: Rgb, d: Rgb)
    requires FormatHex(c) == FormatHex(d)
    ensures c == d
  {
    HexRoundTrip(c);
    HexRoundTrip(d);
  }

  /** The example of a pure red pixel. */
  lemma PureRed()
    ensures GetPixelColor(Pixel(0x0000FF)) == Ok(Rgb(255, 0, 0))
    ensures FormatHex(Rgb(255, 0, 0)) == "#FF0000"
  {
    assert DecodeColorRef(0x0000FF) == Rgb(255, 0, 0) by {
      assert 0xFF % 0x100 == 0xFF && (0xFF / 0x100) % 0x100 == 0 && (0xFF / 0x1_0000) % 0x100 == 0;
    }
    assert FormatByte(255) == "FF" by {
      assert 255 / 16 == 15 && 255 % 16 == 15;
      assert HexDigit(15) == 'F';
    }
    assert FormatByte(0) == "00" by {
      assert HexDigit(0) == '0';
    }
  }

  // ---------------------------------------------------------------------
  // `get_color_at_cursor`
  // ---------------------------------------------------------------------

  /** The screen as the sampler sees it: the `GetCursorPos` result and what a
      pixel read at each position gives. */
  datatype Screen = Screen(cursor: Option<Point>, pixelAt: Point -> PixelRead)

  function GetColorAtCursor(screen: Screen): (r: Result<ColorInfo>)
    ensures screen.cursor.None? ==> r == Err(CursorPositionUnavailable)
    ensures screen.cursor.Some? ==>
      (r.Ok? <==> GetPixelColor(screen.pixelAt(screen.cursor.value)).Ok?)
    ensures screen.cursor.Some? && GetPixelColor(screen.pixelAt(screen.cursor.value)).Err? ==>
      r == Err(GetPixelColor(screen.pixelAt(screen.cursor.value)).error)
    ensures r.Ok? ==>
      && Point(r.value.x, r.value.y) == screen.cursor.value
      && Ok(r.value.rgb) == GetPixelColor(screen.pixelAt(screen.cursor.value))
      && IsCanonicalHex(r.value.hex)
      && ParseHex(r.value.hex) == Some(r.value.rgb)
  {
    match screen.cursor
    case None => Err(CursorPositionUnavailable)
    case Some(p) =>
      match GetPixelColor(screen.pixelAt(p))
      case Err(e) => Err(e)
      case Ok(c) => HexRoundTrip(c); Ok(ColorInfo(FormatHex(c), c, p.x, p.y))
  }

  // ---------------------------------------------------------------------
  // Monitor selection and the zoom-preview crop
  // ---------------------------------------------------------------------

  /** A monitor as xcap reports it: its origin on the virtual desktop and its size. */
  datatype Monitor = Monitor(x: int32, y: int32, width: uint32, height: uint32)

  /** Rust's `as i32` on a `u32`: the same 32 bits read as two's complement. */
  function AsInt32(v: uint32): (r: int32)
    ensures r % 0x1_0000_0000 == v
  {
    if v < 0x8000_0000 then v else v - 0x1_0000_0000
  }

  /** Rust's `as u32` on an `i32`. */
  function AsUint32(v: int32): (r: uint32)
    ensures r % 0x1_0000_0000 == v % 0x1_0000_0000
  {
    if v >= 0 then v else v + 0x1_0000_0000
  }

  /** The `find` closure: half-open on both axes. */
  predicate ContainsCursor(m: Monitor, cx: int, cy: int)
  {
    m.x <= cx < m.x + AsInt32(m.width) && m.y <= cy < m.y + AsInt32(m.height)
  }

  /** The index of the first monitor, in list order, that contains the cursor. */
  function FindMonitor(monitors: seq<Monitor>, cx: int, cy: int): (r: Option<nat>)
    ensures r.Some? ==> r.value < |monitors| && ContainsCursor(monitors[r.value], cx, cy)
    ensures r.Some? ==> forall j :: 0 <= j < r.value ==> !ContainsCursor(monitors[j], cx, cy)
    ensures r.None? ==> forall j :: 0 <= j < |monitors| ==> !ContainsCursor(monitors[j], cx, cy)
  {
    if monitors == [] then None
    else if ContainsCursor(monitors[0], cx, cy) then Some(0)
    else
      match FindMonitor(monitors[1..], cx, cy)
      case None => None
      case Some(i) => Some(i + 1)
  }

  /** The crop handed to `crop_imm`, in monitor-relative pixels. */
  datatype CaptureRect = CaptureRect(x: int32, y: int32, w: uint32, h: uint32)

  function Max(a: int, b: int): int { if a >= b then a else b }
  function Min(a: int, b: int): int { if a <= b then a else b }

  /** The crop centred on the cursor's monitor-relative position `(relX, relY)`
      and clamped to a `monitorW` by `monitorH` monitor. The caller has found a
      monitor that contains the cursor, so the position lies inside it. */
  function CaptureRegion(size: uint32, relX: int, relY: int, monitorW: int32, monitorH: int32): (rect: CaptureRect)
    requires 0 <= relX < monitorW && 0 <= relY < monitorH
    ensures 0 <= rect.x && 0 <= rect.y
    ensures rect.w <= size && rect.h <= size
    ensures rect.x + rect.w <= monitorW && rect.y + rect.h <= monitorH
    ensures size >= 1 ==> rect.w >= 1 && rect.h >= 1
    ensures size >= 1 ==> rect.x <= relX < rect.x + rect.w && rect.y <= relY < rect.y + rect.h
    ensures relX >= size / 2 ==> rect.x == relX - size / 2
    ensures relY >= size / 2 ==> rect.y == relY - size / 2
    ensures relX < size / 2 ==> rect.x == 0
    ensures relY < size / 2 ==> rect.y == 0
    ensures rect.x + size <= monitorW ==> rect.w == size
    ensures rect.y + size <= monitorH ==> rect.h == size
    ensures rect.x + size > monitorW ==> rect.x + rect.w == monitorW
    ensures rect.y + size > monitorH ==> rect.y + rect.h == monitorH
  {
    var half := size / 2;
    var captureX := Max(relX - half, 0);
    var captureY := Max(relY - half, 0);
    var captureW := Min(size, AsUint32(monitorW - captureX));
    var captureH := Min(size, AsUint32(monitorH - captureY));
    CaptureRect(captureX, captureY, captureW, captureH)
  }

  /** The outcome of `capture_image`, the crop and the PNG/base64 encoding. */
  datatype Grab = GrabFailed | EncodingFailed | Encoded(base64: string)

  /** The desktop as the preview sees it: the `Monitor::all` result and what
      capturing a monitor and encoding a crop of it gives. */
  datatype Desktop = Desktop(monitors: Option<seq<Monitor>>, grab: (Monitor, CaptureRect) -> Grab)

  /** The crop `capture_zoom_preview` takes for a cursor on a monitor that contains it. */
  function CropFor(size: uint32, m: Monitor, p: Point): CaptureRect
    requires ContainsCursor(m, p.x, p.y)
  {
    CaptureRegion(size, p.x - m.x, p.y - m.y, AsInt32(m.width), AsInt32(m.height))
  }

  /** `capture_zoom_preview`: sample the colour under the cursor, find its
      monitor, crop around it and encode the crop. */
  function CaptureZoomPreview(size: uint32, screen: Screen, desktop: Desktop): (r: Result<ZoomPreviewData>)
    // A failed sample fails the preview as it fails a pick.
    ensures GetColorAtCursor(screen).Err? ==> r == Err(GetColorAtCursor(screen).error)
    ensures GetColorAtCursor(screen).Ok? && desktop.monitors.None? ==> r == Err(MonitorsUnavailable)
    ensures GetColorAtCursor(screen).Ok? && desktop.monitors.Some? &&
            (forall j :: 0 <= j < |desktop.monitors.value| ==>
               !ContainsCursor(desktop.monitors.value[j], screen.cursor.value.x, screen.cursor.value.y))
            ==> r == Err(NoMonitorAtCursor)
    ensures GetColorAtCursor(screen).Ok? && desktop.monitors.Some? ==>
      var p := screen.cursor.value;
      var ms := desktop.monitors.value;
      FindMonitor(ms, p.x, p.y).Some? ==>
        var m := ms[FindMonitor(ms, p.x, p.y).value];
        && (desktop.grab(m, CropFor(size, m, p)).GrabFailed? ==> r == Err(CaptureFailed))
        && (desktop.grab(m, CropFor(size, m, p)).EncodingFailed? ==> r == Err(EncodeFailed))
        && (desktop.grab(m, CropFor(size, m, p)).Encoded? ==> r.Ok?)
    // The centre colour is what a pick at the same moment reports.
    ensures r.Ok? ==> GetColorAtCursor(screen) == Ok(r.value.centerColor)
    ensures r.Ok? ==> r.value.width <= size && r.value.height <= size
    ensures r.Ok? && size >= 1 ==> r.value.width >= 1 && r.value.height >= 1
    ensures r.Ok? ==>
      var p := screen.cursor.value;
      var ms := desktop.monitors.value;
      && FindMonitor(ms, p.x, p.y).Some?
      && var m := ms[FindMonitor(ms, p.x, p.y).value];
      && var rect := CropFor(size, m, p);
      && desktop.grab(m, rect) == Encoded(r.value.imageData)
      && rect.w == r.value.width && rect.h == r.value.height
      && rect.x + rect.w <= AsInt32(m.width) && rect.y + rect.h <= AsInt32(m.height)
  {
    match screen.cursor
    case None => Err(CursorPositionUnavailable)
    case Some(p) =>
      match GetPixelColor(screen.pixelAt(p))
      case Err(e) => Err(e)
      case Ok(c) =>
        match desktop.monitors
        case None => Err(MonitorsUnavailable)
        case Some(ms) =>
          match FindMonitor(ms, p.x, p.y)
          case None => Err(NoMonitorAtCursor)
          case Some(i) =>
            var m := ms[i];
            var rect := CropFor(size, m, p);
            match desktop.grab(m, rect)
            case GrabFailed => Err(CaptureFailed)
            case EncodingFailed => Err(EncodeFailed)
            case Encoded(data) =>
              Ok(ZoomPreviewData(data, ColorInfo(FormatHex(c), c, p.x, p.y), rect.w, rect.h))
  }

  // ---------------------------------------------------------------------
  // The cursor bitmap: RGBA to premultiplied BGRA
  // ---------------------------------------------------------------------

  /** `(c * a / 255) as u8`: the cast truncates to the low byte. */
  function Scale(c: uint8, a: uint8): uint8
  {
    (c * a / 255) % 0x100
  }

  /** The cast never truncates, and the scaled channel is bounded by both
      the channel and the alpha. */
  lemma ScaleBounds(c: uint8, a: uint8)
    ensures Scale(c, a) == c * a / 255
    ensures Scale(c, a) <= c && Scale(c, a) <= a
    ensures a == 255 ==> Scale(c, a) == c
    ensures a == 0 ==> Scale(c, a) == 0
  {
    assert c * a <= c * 255 by { MulMono(c, a, 255); }
    assert c * a <= 255 * a by { MulMono(a, c, 255); }
    assert (c * 255) / 255 == c;
    assert (255 * a) / 255 == a;
    DivMono(c * a, c * 255);
    DivMono(c * a, 255 * a);
  }

  lemma MulMono(k: nat, x: nat, y: nat)
    requires x <= y
    ensures k * x <= k * y && x * k <= y * k
  {
  }

  lemma DivMono(x: nat, y: nat)
    requires x <= y
    ensures x / 255 <= y / 255
  {
  }

  /** One destination pixel: blue, green and red scaled by alpha, then alpha. */
  function BgraPixel(r: uint8, g: uint8, b: uint8, a: uint8): seq<uint8>
  {
    [Scale(b, a), Scale(g, a), Scale(r, a), a]
  }

  /** The whole destination buffer for an RGBA source buffer. */
  function Premultiplied(src: seq<uint8>): (dst: seq<uint8>)
    requires |src| % 4 == 0
    ensures |dst| == |src|
    decreases |src|
  {
    if src == [] then []
    else
      var k := |src| - 4;
      Premultiplied(src[..k]) + BgraPixel(src[k], src[k + 1], src[k + 2], src[k + 3])
  }

  /** Pixel `p` of the destination is the conversion of pixel `p` of the source. */
  lemma {:induction false} PremultipliedAt(src: seq<uint8>, p: nat)
    requires |src| % 4 == 0 && 4 * p + 4 <= |src|
    ensures Premultiplied(src)[4 * p .. 4 * p + 4] ==
            BgraPixel(src[4 * p], src[4 * p + 1], src[4 * p + 2], src[4 * p + 3])
  {
    var k := |src| - 4;
    var prefix := src[..k];
    var rest := Premultiplied(prefix);
    assert Premultiplied(src) == rest + BgraPixel(src[k], src[k + 1], src[k + 2], src[k + 3]);
    if 4 * p < k {
      PremultipliedAt(prefix, p);
      assert Premultiplied(src)[4 * p .. 4 * p + 4] == rest[4 * p .. 4 * p + 4];
    } else {
      assert 4 * p == k;
    }
  }

  /** What the conversion promises of one pixel. */
  predicate ConvertedPixel(r: uint8, g: uint8, b: uint8, a: uint8, out: seq<uint8>)
  {
    && |out| == 4
    && out[3] == a
    && out[0] <= b && out[0] <= a
    && out[1] <= g && out[1] <= a
    && out[2] <= r && out[2] <= a
    && (a == 255 ==> out[0] == b && out[1] == g && out[2] == r)
    && (a == 0 ==> out[0] == 0 && out[1] == 0 && out[2] == 0)
  }

  lemma BgraPixelConverts(r: uint8, g: uint8, b: uint8, a: uint8)
    ensures ConvertedPixel(r, g, b, a, BgraPixel(r, g, b, a))
  {
    ScaleBounds(b, a);
    ScaleBounds(g, a);
    ScaleBounds(r, a);
  }

  /** Every pixel of the buffer is converted: alpha copied, each colour byte
      bounded by its source channel and by alpha, opaque pixels kept exactly
      and transparent pixels zeroed. */
  lemma PremultipliedChannels(src: seq<uint8>, p: nat)
    requires |src| % 4 == 0 && 4 * p + 4 <= |src|
    ensures ConvertedPixel(src[4 * p], src[4 * p + 1], src[4 * p + 2], src[4 * p + 3],
                           Premultiplied(src)[4 * p .. 4 * p + 4])
  {
    PremultipliedAt(src, p);
    BgraPixelConverts(src[4 * p], src[4 * p + 1], src[4 * p + 2], src[4 * p + 3]);
  }

  /** The `for i in 0..(w * h)` loop of `set_pick_cursor`, writing the DIB
      section's bytes in place. */
  method PremultiplyToBgra(pixels: seq<uint8>, w: nat, h: nat, dst: array<uint8>)
    requires |pixels| == w * h * 4 && dst.Length == w * h * 4
    modifies dst
    ensures dst[..] == Premultiplied(pixels)
  {
    var n := w * h;
    var i := 0;
    while i < n
      invariant 0 <= i <= n
      invariant dst[..4 * i] == Premultiplied(pixels[..4 * i])
    {
      var r, g, b, a := pixels[i * 4], pixels[i * 4 + 1], pixels[i * 4 + 2], pixels[i * 4 + 3];
      ghost var done := dst[..4 * i];
      dst[i * 4] := Scale(b, a);
      dst[i * 4 + 1] := Scale(g, a);
      dst[i * 4 + 2] := Scale(r, a);
      dst[i * 4 + 3] := a;
      assert dst[..4 * (i + 1)] == done + BgraPixel(r, g, b, a);
      assert pixels[..4 * (i + 1)][..4 * i] == pixels[..4 * i];
      i := i + 1;
    }
    assert pixels[..4 * n] == pixels;
    assert dst[..4 * n] == dst[..];
  }

  // ---------------------------------------------------------------------
  // `set_pick_cursor`, `restore_default_cursor` and `CURSOR_CHANGED`
  // ---------------------------------------------------------------------

  /** The embedded icon once decoded to RGBA: `width * height` pixels of four bytes. */
  datatype RgbaImage = RgbaImage(width: uint32, height: uint32, pixels: seq<uint8>)

  predicate WellFormed(img: RgbaImage)
  {
    |img.pixels| == img.width * img.height * 4
  }

  /** What the Win32 calls behind the custom cursor give: the decoded icon (or
      a decoding failure), whether `CreateDIBSection` gave a usable bits
      pointer, whether `CreateIconIndirect` and `SetSystemCursor` succeeded. */
  datatype CursorEnv = CursorEnv(icon: Option<RgbaImage>, dibSection: bool, iconCreated: bool, systemCursorSet: bool)

  /** The ICONINFO handed to `CreateIconIndirect`: the hotspot and the colour bitmap's bytes. */
  datatype IconInfo = IconInfo(xHotspot: nat, yHotspot: nat, colorBits: seq<uint8>)

  /** Whether every step up to `SetSystemCursor` succeeds. */
  predicate CursorInstalled(env: CursorEnv)
  {
    env.icon.Some? && env.dibSection && env.iconCreated && env.systemCursorSet
  }

  /** The process-wide `CURSOR_CHANGED` flag: true exactly while the system
      arrow has been replaced by this program and not restored. */
  class PickCursor {
    var changed: bool

    constructor ()
      ensures !changed
    {
      changed := false;
    }

    method SetPickCursor(env: CursorEnv) returns (icon: Option<IconInfo>)
      requires env.icon.Some? ==> WellFormed(env.icon.value)
      modifies this
      ensures icon.Some? <==> env.icon.Some? && env.dibSection
      ensures icon.Some? ==>
        var img := env.icon.value;
        && icon.value.colorBits == Premultiplied(img.pixels)
        && icon.value.xHotspot == img.width / 2 && icon.value.yHotspot == img.height / 2
        && (img.width > 0 ==> icon.value.xHotspot < img.width)
        && (img.height > 0 ==> icon.value.yHotspot < img.height)
      // The flag is raised only when `SetSystemCursor` succeeds, and never lowered here.
      ensures changed == (old(changed) || CursorInstalled(env))
    {
      icon := None;
      if env.icon.None? {
        return;
      }
      var img := env.icon.value;
      if !env.dibSection {
        return;
      }
      var dst := new uint8[img.width * img.height * 4];
      PremultiplyToBgra(img.pixels, img.width, img.height, dst);
      icon := Some(IconInfo(img.width / 2, img.height / 2, dst[..]));
      if env.iconCreated && env.systemCursorSet {
        changed := true;
      }
    }

    /** Reloads the system cursors (`SystemParametersInfoW(SPI_SETCURSORS)`)
        only if this program changed them; `reset` says whether it did. */
    method RestoreDefaultCursor() returns (reset: bool)
      modifies this
      ensures reset == old(changed)
      ensures !changed
    {
      reset := changed;
      if changed {
        changed := false;
      }
    }
  }

  /** Restoring twice resets the system cursors at most once. */
  method RestoreTwice(cursor: PickCursor) returns (first: bool, second: bool)
    modifies cursor
    ensures first == old(cursor.changed)
    ensures !second && !cursor.changed
  {
    first := cursor.RestoreDefaultCursor();
    second := cursor.RestoreDefaultCursor();
  }
}

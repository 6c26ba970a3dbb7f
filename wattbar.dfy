/**
 * The bar itself (src/main.rs): the per-surface render-event slot and the two callbacks that
 * merge into it, `Surface::resize`, `handle_events` and `draw`'s buffer fill, and the main
 * loop's list of surfaces.
 *
 * Wayland requests other than the layer-surface size are left out; a drawn buffer is recorded
 * as the frame the surface commits.  palette's colour conversions, `mix`, `darken` and the
 * ARGB packing are the uninterpreted functions of `DrawColors`.
 */
module WattBar {
  import opened Base
  import Themes
  import UPower

  // ------------------------------------------------------------------ render events

  /** `RenderEvent`: what the next call of `handle_events` has to do. */
  datatype RenderEvent = Closed | Configure(width: U32, height: U32) | DataChanged

  /** The layer-surface events the callback receives (the serial is only acknowledged). */
  datatype LayerEvent = LayerClosed | LayerConfigure(serial: U32, width: U32, height: U32)

  /** The slot after the layer-surface callback has seen `ev`. */
  function AfterLayerEvent(slot: Option<RenderEvent>, ev: LayerEvent): Option<RenderEvent>
  {
    match ev
    case LayerClosed => Some(Closed)
    case LayerConfigure(_, w, h) => if slot != Some(Closed) then Some(Configure(w, h)) else slot
  }

  /** The slot after the power-update callback: DataChanged is installed only in an empty slot. */
  function AfterPowerUpdate(slot: Option<RenderEvent>): Option<RenderEvent>
  {
    if slot.None? then Some(DataChanged) else slot
  }

  /** A layer-surface close always wins, whatever the slot held. */
  lemma ClosedOverwrites(slot: Option<RenderEvent>)
    ensures AfterLayerEvent(slot, LayerClosed) == Some(Closed)
  {
  }

  /** A configure replaces anything but a pending Closed, which it leaves untouched. */
  lemma ConfigureOverwritesAllButClosed(slot: Option<RenderEvent>, serial: U32, w: U32, h: U32)
    ensures slot == Some(Closed) ==> AfterLayerEvent(slot, LayerConfigure(serial, w, h)) == slot
    ensures slot != Some(Closed) ==> AfterLayerEvent(slot, LayerConfigure(serial, w, h)) == Some(Configure(w, h))
  {
  }

  /** A power update never displaces a pending event, and fills an empty slot with DataChanged. */
  lemma PowerUpdateNeverDisplaces(slot: Option<RenderEvent>)
    ensures slot.Some? ==> AfterPowerUpdate(slot) == slot
    ensures slot.None? ==> AfterPowerUpdate(slot) == Some(DataChanged)
  {
  }

  /** Something that happens to the slot between two passes of the main loop. */
  datatype SlotEvent = Layer(event: LayerEvent) | PowerUpdate

  function AfterSlotEvent(slot: Option<RenderEvent>, e: SlotEvent): Option<RenderEvent>
  {
    match e
    case Layer(ev) => AfterLayerEvent(slot, ev)
    case PowerUpdate => AfterPowerUpdate(slot)
  }

  /** The slot after a sequence of callbacks, in order. */
  function AfterSlotEvents(slot: Option<RenderEvent>, es: seq<SlotEvent>): Option<RenderEvent>
  {
    if es == [] then slot else AfterSlotEvent(AfterSlotEvents(slot, es[..|es| - 1]), es[|es| - 1])
  }

  /** Once Closed is pending, no later callback removes it. */
  lemma {:induction false} ClosedIsAbsorbing(es: seq<SlotEvent>)
    ensures AfterSlotEvents(Some(Closed), es) == Some(Closed)
  {
    if es != [] {
      ClosedIsAbsorbing(es[..|es| - 1]);
    }
  }

  /** A close anywhere in the sequence leaves Closed pending at the end. */
  lemma {:induction false} CloseAnywhereWins(slot: Option<RenderEvent>, es: seq<SlotEvent>, k: nat)
    requires k < |es| && es[k] == Layer(LayerClosed)
    ensures AfterSlotEvents(slot, es) == Some(Closed)
  {
    if k == |es| - 1 {
    } else {
      CloseAnywhereWins(slot, es[..|es| - 1], k);
      assert AfterSlotEvents(slot, es[..|es| - 1]) == Some(Closed);
    }
  }

  /**
   * Without a close, the last configure wins over everything before it, and power updates
   * after it do not displace it.
   */
  lemma {:induction false} LastConfigureWins(slot: Option<RenderEvent>, es: seq<SlotEvent>, k: nat)
    requires slot != Some(Closed)
    requires k < |es| && es[k].Layer? && es[k].event.LayerConfigure?
    requires forall m :: 0 <= m < |es| ==> es[m] != Layer(LayerClosed)
    requires forall m :: k < m < |es| ==> es[m] == PowerUpdate
    ensures AfterSlotEvents(slot, es) == Some(Configure(es[k].event.width, es[k].event.height))
  {
    if k == |es| - 1 {
      assert AfterSlotEvents(slot, es[..|es| - 1]) != Some(Closed) by {
        NoCloseNoClosed(slot, es[..|es| - 1]);
      }
    } else {
      LastConfigureWins(slot, es[..|es| - 1], k);
    }
  }

  /** Without a close in the sequence, Closed is never pending unless it was to begin with. */
  lemma {:induction false} NoCloseNoClosed(slot: Option<RenderEvent>, es: seq<SlotEvent>)
    requires slot != Some(Closed)
    requires forall m :: 0 <= m < |es| ==> es[m] != Layer(LayerClosed)
    ensures AfterSlotEvents(slot, es) != Some(Closed)
  {
    if es != [] {
      NoCloseNoClosed(slot, es[..|es| - 1]);
    }
  }

  /** Power updates alone only ever turn an empty slot into DataChanged. */
  lemma {:induction false} PowerUpdatesOnly(slot: Option<RenderEvent>, es: seq<SlotEvent>)
    requires |es| > 0 && forall m :: 0 <= m < |es| ==> es[m] == PowerUpdate
    ensures AfterSlotEvents(slot, es) == if slot.None? then Some(DataChanged) else slot
  {
    if |es| > 1 {
      PowerUpdatesOnly(slot, es[..|es| - 1]);
    }
  }

  // ------------------------------------------------------------------ the pixel bar

  /** Four bytes of one ARGB pixel, least significant first (`to_le_bytes`). */
  type PixelBytes = s: seq<Byte> | |s| == 4 witness [0, 0, 0, 0]

  /** `n` copies of `s`, one after the other. */
  function Repeat(s: seq<Byte>, n: nat): (r: seq<Byte>)
    ensures |r| == |s| * n
  {
    if n == 0 then [] else Repeat(s, n - 1) + s
  }

  /** One row of the bar: `fill` foreground pixels, then background pixels up to `width`. */
  function Row(width: nat, fill: nat, fg: PixelBytes, bg: PixelBytes): (r: seq<Byte>)
    requires fill <= width
    ensures |r| == 4 * width
  {
    Repeat(fg, fill) + Repeat(bg, width - fill)
  }

  /** The whole canvas: `height` identical rows, 4 * width bytes each. */
  function Bar(width: nat, height: nat, fill: nat, fg: PixelBytes, bg: PixelBytes): seq<Byte>
    requires fill <= width
  {
    Repeat(Row(width, fill, fg, bg), height)
  }

  /** Where byte j of pixel p of row r sits in a canvas with a stride of 4 * width bytes. */
  function ByteIndex(width: nat, r: nat, p: nat, j: nat): nat
  {
    r * (4 * width) + 4 * p + j
  }

  /** The byte the fill loop writes at byte j of pixel p. */
  function PixelByte(fill: nat, fg: PixelBytes, bg: PixelBytes, p: nat, j: nat): Byte
    requires j < 4
  {
    if p < fill then fg[j] else bg[j]
  }

  lemma ByteIndexBound(width: nat, height: nat, r: nat, p: nat, j: nat)
    requires r < height && p < width && j < 4
    ensures ByteIndex(width, r, p, j) < 4 * width * height
  {
    calc {
      ByteIndex(width, r, p, j);
    <  r * (4 * width) + 4 * width;
    == (r + 1) * (4 * width);
    <= { MulMono(r + 1, height, 4 * width); }
       height * (4 * width);
    }
  }

  lemma MulMono(a: nat, b: nat, c: nat)
    requires a <= b
    ensures a * c <= b * c
  {
  }

  /** Pixels are written in order: every byte of an earlier pixel lies before pixel p of row r. */
  lemma ByteIndexOrder(width: nat, r': nat, p': nat, j': nat, r: nat, p: nat)
    requires p' < width && j' < 4 && (r' < r || (r' == r && p' < p))
    ensures ByteIndex(width, r', p', j') < ByteIndex(width, r, p, 0)
  {
    if r' < r {
      calc {
        ByteIndex(width, r', p', j');
      <  (r' + 1) * (4 * width);
      <= { MulMono(r' + 1, r, 4 * width); }
         r * (4 * width);
      }
    }
  }

  /** Every byte of the canvas is byte j of pixel p of some row r. */
  lemma ByteIndexCovers(width: nat, height: nat, i: nat) returns (r: nat, p: nat, j: nat)
    requires i < 4 * width * height
    ensures r < height && p < width && j < 4 && ByteIndex(width, r, p, j) == i
  {
    var stride := 4 * width;
    assert stride * height == 4 * width * height;
    assert stride > 0 by {
      if width == 0 { assert false; }
    }
    var k;
    r, k := DivideBy(i, stride);
    p, j := DivideBy(k, 4);
    if r >= height {
      MulMono(height, r, stride);
      assert false;
    }
  }

  /** Euclidean division of n by d > 0, as quotient and remainder. */
  lemma DivideBy(n: nat, d: nat) returns (q: nat, m: nat)
    requires d > 0
    ensures n == q * d + m && m < d
  {
    q := n / d;
    m := n % d;
  }

  /** `s` holds, at every pixel of every row, the foreground before `fill` and the background after. */
  ghost predicate IsBar(s: seq<Byte>, width: nat, height: nat, fill: nat, fg: PixelBytes, bg: PixelBytes)
  {
    && |s| == 4 * width * height
    && forall r: nat, p: nat, j: nat :: r < height && p < width && j < 4 ==>
         ByteIndex(width, r, p, j) < |s| && s[ByteIndex(width, r, p, j)] == PixelByte(fill, fg, bg, p, j)
  }

  /** Two canvases that both satisfy IsBar are the same bytes. */
  lemma IsBarUnique(s: seq<Byte>, t: seq<Byte>, width: nat, height: nat, fill: nat, fg: PixelBytes, bg: PixelBytes)
    requires IsBar(s, width, height, fill, fg, bg) && IsBar(t, width, height, fill, fg, bg)
    ensures s == t
  {
    forall i | 0 <= i < |s|
      ensures s[i] == t[i]
    {
      var r, p, j := ByteIndexCovers(width, height, i);
    }
  }

  lemma {:induction false} RepeatAt(s: seq<Byte>, n: nat, q: nat, m: nat)
    requires q < n && m < |s|
    ensures q * |s| + m < |Repeat(s, n)| && Repeat(s, n)[q * |s| + m] == s[m]
  {
    MulMono(q + 1, n, |s|);
    if q < n - 1 {
      RepeatAt(s, n - 1, q, m);
      MulMono(q + 1, n - 1, |s|);
    } else {
      assert Repeat(s, n) == Repeat(s, n - 1) + s;
      assert q * |s| == |Repeat(s, n - 1)|;
    }
  }

  /** The row-by-row definition of the canvas is a bar in the byte-by-byte sense. */
  lemma BarIsBar(width: nat, height: nat, fill: nat, fg: PixelBytes, bg: PixelBytes)
    requires fill <= width
    ensures IsBar(Bar(width, height, fill, fg, bg), width, height, fill, fg, bg)
  {
    var row := Row(width, fill, fg, bg);
    forall r: nat, p: nat, j: nat | r < height && p < width && j < 4
      ensures ByteIndex(width, r, p, j) < |Bar(width, height, fill, fg, bg)|
      ensures Bar(width, height, fill, fg, bg)[ByteIndex(width, r, p, j)] == PixelByte(fill, fg, bg, p, j)
    {
      RepeatAt(row, height, r, 4 * p + j);
      if p < fill {
        RepeatAt(fg, fill, p, j);
        assert row[4 * p + j] == Repeat(fg, fill)[p * 4 + j];
      } else {
        RepeatAt(bg, width - fill, p - fill, j);
        assert row[4 * p + j] == Repeat(bg, width - fill)[(p - fill) * 4 + j];
      }
    }
  }

  // ------------------------------------------------------------------ the fill loop

  /** The first `p` pixels of row `r`, and every pixel of the rows before it, are already written. */
  ghost predicate Filled(s: seq<Byte>, width: nat, height: nat, fill: nat, fg: PixelBytes, bg: PixelBytes, r: nat, p: nat)
  {
    forall r': nat, p': nat, j: nat :: r' < height && p' < width && j < 4 && (r' < r || (r' == r && p' < p)) ==>
      ByteIndex(width, r', p', j) < |s| && s[ByteIndex(width, r', p', j)] == PixelByte(fill, fg, bg, p', j)
  }

  /** `chunk.copy_from_slice(px)` for the 4-byte chunk starting at `at`. */
  method CopyPixel(canvas: array<Byte>, at: nat, px: PixelBytes)
    requires at + 4 <= canvas.Length
    modifies canvas
    ensures forall k :: 0 <= k < canvas.Length && !(at <= k < at + 4) ==> canvas[k] == old(canvas[k])
    ensures forall j :: 0 <= j < 4 ==> canvas[at + j] == px[j]
  {
    canvas[at] := px[0];
    canvas[at + 1] := px[1];
    canvas[at + 2] := px[2];
    canvas[at + 3] := px[3];
  }

  /** Writing pixel p of row r keeps every earlier pixel and completes pixel p. */
  lemma FilledStep(before: seq<Byte>, after: seq<Byte>, width: nat, height: nat, fill: nat, fg: PixelBytes, bg: PixelBytes, r: nat, p: nat)
    requires r < height && p < width && |after| == |before| == 4 * width * height
    requires ByteIndex(width, r, p, 3) < |before|
    requires Filled(before, width, height, fill, fg, bg, r, p)
    requires forall k :: 0 <= k < ByteIndex(width, r, p, 0) ==> after[k] == before[k]
    requires forall j :: 0 <= j < 4 ==> ByteIndex(width, r, p, j) < |after| && after[ByteIndex(width, r, p, j)] == PixelByte(fill, fg, bg, p, j)
    ensures Filled(after, width, height, fill, fg, bg, r, p + 1)
  {
    forall r': nat, p': nat, j: nat | r' < height && p' < width && j < 4 && (r' < r || (r' == r && p' < p + 1))
      ensures ByteIndex(width, r', p', j) < |after| && after[ByteIndex(width, r', p', j)] == PixelByte(fill, fg, bg, p', j)
    {
      ByteIndexBound(width, height, r', p', j);
      if r' != r || p' != p {
        ByteIndexOrder(width, r', p', j, r, p);
        KeptByte(before, after, ByteIndex(width, r', p', j), ByteIndex(width, r, p, 0));
      }
    }
  }

  lemma KeptByte(before: seq<Byte>, after: seq<Byte>, k: nat, bound: nat)
    requires k < bound <= |before| && bound <= |after|
    requires forall k' :: 0 <= k' < bound ==> after[k'] == before[k']
    ensures after[k] == before[k]
  {
  }

  /**
   * `draw`'s blit: for every row (a chunk of 4 * width bytes), the first `fill` pixels get the
   * foreground bytes and the rest the background bytes.  Every byte of the canvas is written.
   */
  method FillBuffer(canvas: array<Byte>, width: nat, height: nat, fill: nat, fg: PixelBytes, bg: PixelBytes)
    requires fill <= width && canvas.Length == 4 * width * height
    modifies canvas
    ensures canvas[..] == Bar(width, height, fill, fg, bg)
  {
    var r := 0;
    while r < height
      invariant r <= height
      invariant Filled(canvas[..], width, height, fill, fg, bg, r, 0)
    {
      var p := 0;
      while p < width
        invariant p <= width
        invariant Filled(canvas[..], width, height, fill, fg, bg, r, p)
      {
        ghost var before := canvas[..];
        ByteIndexBound(width, height, r, p, 3);
        var at := ByteIndex(width, r, p, 0);
        CopyPixel(canvas, at, if p < fill then fg else bg);
        FilledStep(before, canvas[..], width, height, fill, fg, bg, r, p);
        p := p + 1;
      }
      assert Filled(canvas[..], width, height, fill, fg, bg, r + 1, 0);
      r := r + 1;
    }
    BarIsBar(width, height, fill, fg, bg);
    IsBarUnique(canvas[..], Bar(width, height, fill, fg, bg), width, height, fill, fg, bg);
  }

  // ------------------------------------------------------------------ draw

  /**
   * palette's part of `draw`: the Oklab values of linear red, linear green and sRGB (0, 0.5, 1),
   * `mix`, `darken` and the ARGB packing of a colour into four bytes.
   */
  datatype DrawColors = DrawColors(
    emptyColor: Themes.Oklaba,
    fullColor: Themes.Oklaba,
    chargingColor: Themes.Oklaba,
    mix: Themes.MixFn,
    darken: (Themes.Oklaba, real) -> Themes.Oklaba,
    pack: Themes.Oklaba -> PixelBytes)

  /**
   * `(width as f32 * pct) as usize`: the product rounded toward zero, with the saturating
   * cast sending everything at or below zero to 0.
   */
  function FillPixels(width: nat, pct: real): nat
  {
    var x := width as real * pct;
    if x <= 0.0 then 0 else x.Floor
  }

  /** The fill is the floor of width * pct for a non-negative fraction, and 0 for a non-positive one. */
  lemma FillPixelsFloor(width: nat, pct: real)
    ensures pct >= 0.0 ==> FillPixels(width, pct) as real <= width as real * pct < FillPixels(width, pct) as real + 1.0
    ensures pct <= 0.0 ==> FillPixels(width, pct) == 0
  {
  }

  /** A level at most 1 never fills past the width, so `row[..fill_width]` is in bounds. */
  lemma FillWithinWidth(width: nat, pct: real)
    requires pct <= 1.0
    ensures FillPixels(width, pct) <= width
  {
    FillPixelsFloor(width, pct);
    if pct > 0.0 {
      assert width as real * pct <= width as real * 1.0;
    }
  }

  /** With no snapshot the bar is half full: floor(width / 2) pixels. */
  lemma FillHalf(width: nat)
    ensures FillPixels(width, 0.5) == width / 2
  {
    var n := FillPixels(width, 0.5);
    FillPixelsFloor(width, 0.5);
    assert n as real <= width as real / 2.0 < n as real + 1.0;
    assert 2 * n <= width < 2 * n + 2;
  }

  /** The fraction of the bar `draw` fills: the level of the snapshot, 0.5 without one. */
  function Pct(status: Option<UPower.PowerState>): real
  {
    if status.None? then 0.5 else status.value.level
  }

  /**
   * The foreground colour: the charging colour with no snapshot or while charging, otherwise the
   * mix from the empty colour to the full colour by the level.
   */
  function BaseColor(colors: DrawColors, status: Option<UPower.PowerState>): Themes.Oklaba
  {
    if status.Some? && status.value.state != Themes.Charging then
      colors.mix(colors.emptyColor, colors.fullColor, status.value.level)
    else colors.chargingColor
  }

  /**
   * Under the reference linear mix, a discharging battery is drawn in the empty colour at
   * level 0, in the full colour at level 1, and halfway between them at level 0.5.
   */
  lemma BaseColorUnderLinearMix(colors: DrawColors, s: UPower.PowerState)
    requires colors.mix == Themes.Lerp && s.state != Themes.Charging
    ensures s.level <= 0.0 ==> BaseColor(colors, Some(s)) == colors.emptyColor
    ensures s.level >= 1.0 ==> BaseColor(colors, Some(s)) == colors.fullColor
    ensures s.level == 0.5 ==> BaseColor(colors, Some(s)) == Themes.Midpoint(colors.emptyColor, colors.fullColor)
  {
    if s.level == 0.5 {
      Themes.LerpHalfIsMidpoint(colors.emptyColor, colors.fullColor);
    }
  }

  /** `draw` can run: it returns early on an empty surface, and otherwise must not fill past the width. */
  predicate CanDraw(width: nat, height: nat, status: Option<UPower.PowerState>)
  {
    width == 0 || height == 0 || FillPixels(width, Pct(status)) <= width
  }

  /** Any snapshot with a level at most 1, and the fallback of no snapshot, can be drawn at any size. */
  lemma LevelAtMostOneCanDraw(width: nat, height: nat, status: Option<UPower.PowerState>)
    requires status.None? || status.value.level <= 1.0
    ensures CanDraw(width, height, status)
  {
    FillWithinWidth(width, Pct(status));
  }

  /** The frames `draw` commits: none for an empty surface, otherwise the bar for the snapshot. */
  function DrawnFrames(width: nat, height: nat, colors: DrawColors, status: Option<UPower.PowerState>): (r: seq<seq<Byte>>)
    requires CanDraw(width, height, status)
    ensures |r| <= 1
  {
    if width == 0 || height == 0 then []
    else
      var base := BaseColor(colors, status);
      [Bar(width, height, FillPixels(width, Pct(status)), colors.pack(base), colors.pack(colors.darken(base, 0.5)))]
  }

  /** Each drawn row starts with floor(width * pct) copies of the foreground pixel and ends with background pixels. */
  lemma DrawnRows(width: nat, height: nat, colors: DrawColors, status: Option<UPower.PowerState>)
    requires width > 0 && height > 0 && CanDraw(width, height, status)
    ensures var base := BaseColor(colors, status);
      var fill := FillPixels(width, Pct(status));
      IsBar(DrawnFrames(width, height, colors, status)[0], width, height, fill, colors.pack(base), colors.pack(colors.darken(base, 0.5)))
  {
    var base := BaseColor(colors, status);
    BarIsBar(width, height, FillPixels(width, Pct(status)), colors.pack(base), colors.pack(colors.darken(base, 0.5)));
  }

  // ------------------------------------------------------------------ resize

  /** An output mode: its dimensions in pixels and whether it is the current one. */
  datatype Mode = Mode(width: int, height: int, isCurrent: bool)

  /** What `with_output_info` gives: the output's modes and its scale factor. */
  datatype OutputInfo = OutputInfo(modes: seq<Mode>, scaleFactor: int)

  /** `modes.iter().find(|mode| mode.is_current)` */
  function CurrentMode(modes: seq<Mode>): (r: Option<Mode>)
    ensures r.Some? <==> exists k :: 0 <= k < |modes| && modes[k].isCurrent
    ensures r.Some? ==> r.value.isCurrent && r.value in modes
  {
    if modes == [] then None
    else if modes[0].isCurrent then Some(modes[0])
    else
      var r := CurrentMode(modes[1..]);
      assert forall k :: 1 <= k < |modes| ==> modes[k] == modes[1..][k - 1];
      r
  }

  /** The first current mode is the one found: no mode before it is current. */
  lemma {:induction false} CurrentModeIsFirst(modes: seq<Mode>) returns (k: nat)
    requires CurrentMode(modes).Some?
    ensures k < |modes| && modes[k] == CurrentMode(modes).value
    ensures forall m :: 0 <= m < k ==> !modes[m].isCurrent
  {
    if modes[0].isCurrent {
      k := 0;
    } else {
      var k' := CurrentModeIsFirst(modes[1..]);
      k := k' + 1;
    }
  }

  function Dimensions(mode: Option<Mode>): Option<(int, int)>
  {
    if mode.None? then None else Some((mode.value.width, mode.value.height))
  }

  /** Rust's `/` on i32: the quotient truncated toward zero. */
  function TruncDiv(a: int, b: int): (q: int)
    requires b != 0
    ensures Abs(q) == Abs(a) / Abs(b)
    ensures q < 0 ==> (a < 0) != (b < 0)
    ensures (a < 0) != (b < 0) ==> q <= 0
  {
    var m: int := NatDiv(Abs(a), Abs(b));
    if (a < 0) == (b < 0) then m else -m
  }

  /** The truncated quotient leaves a remainder of the dividend's sign, smaller than the divisor in magnitude. */
  lemma TruncDivTruncates(a: int, b: int)
    requires b != 0
    ensures var q := TruncDiv(a, b);
      && Abs(q * b) <= Abs(a) < Abs(q * b) + Abs(b)
      && (a >= 0 ==> 0 <= a - q * b) && (a <= 0 ==> a - q * b <= 0)
  {
    var q := TruncDiv(a, b);
    var m := Abs(a) / Abs(b);
    assert Abs(q * b) == m * Abs(b) by {
      if q < 0 {
        assert q * b == -(m * b);
      } else {
        assert q * b == m * b;
      }
      assert Abs(m * b) == m * Abs(b);
    }
    assert m * Abs(b) <= Abs(a) < m * Abs(b) + Abs(b);
  }

  /** Division toward zero on the four sign combinations of 7 and 2. */
  lemma TruncDivSigns()
    ensures TruncDiv(7, 2) == 3 && TruncDiv(-7, 2) == -3 && TruncDiv(7, -2) == -3 && TruncDiv(-7, -2) == 3
  {
  }

  function Abs(x: int): nat
  {
    if x < 0 then -x else x
  }

  function NatDiv(x: nat, y: nat): (m: nat)
    requires y > 0
    ensures m == x / y
  {
    x / y
  }

  /** `as u32` of an i32: two's-complement reinterpretation. */
  function ToU32(x: int): U32
  {
    x % 0x1_0000_0000
  }

  /** The layer-surface requests the model records. */
  datatype LayerRequest = SetSize(width: U32, height: U32) | SetExclusiveZone(zone: int)

  /** `resize` divides by the scale factor whenever the output has a current mode. */
  predicate ResizeDefined(info: OutputInfo)
  {
    CurrentMode(info.modes).None? || info.scaleFactor != 0
  }

  /** `resize` returns early when neither the mode's dimensions nor the scale changed. */
  predicate ResizeSkips(mode: Option<Mode>, scale: int, info: OutputInfo)
  {
    Dimensions(mode) == Dimensions(CurrentMode(info.modes)) && scale == info.scaleFactor
  }

  /** The requests `resize` sends: the width of the current mode over the scale, height 3, exclusive zone 3. */
  function ResizeRequests(mode: Option<Mode>, scale: int, info: OutputInfo): seq<LayerRequest>
    requires ResizeDefined(info)
  {
    var current := CurrentMode(info.modes);
    if ResizeSkips(mode, scale, info) || current.None? then []
    else [SetSize(ToU32(TruncDiv(current.value.width, info.scaleFactor)), 3), SetExclusiveZone(3)]
  }

  function ScaleAfterResize(mode: Option<Mode>, scale: int, info: OutputInfo): int
  {
    if ResizeSkips(mode, scale, info) || CurrentMode(info.modes).None? then scale else info.scaleFactor
  }

  /**
   * `resize` never stores the mode, so with the stored mode still None the early return is never
   * taken while the output has a current mode: the size is requested again on every call.
   */
  lemma ResizeAlwaysRequests(scale: int, info: OutputInfo)
    requires CurrentMode(info.modes).Some? && info.scaleFactor != 0
    ensures ResizeRequests(None, scale, info) ==
      [SetSize(ToU32(TruncDiv(CurrentMode(info.modes).value.width, info.scaleFactor)), 3), SetExclusiveZone(3)]
    ensures ScaleAfterResize(None, scale, info) == info.scaleFactor
  {
  }

  /** A mode of width w on a positive scale requests the width w / scale; on scale 1, w itself. */
  lemma ResizeWidth(w: nat, scale: int)
    requires scale > 0 && w < 0x8000_0000
    ensures ToU32(TruncDiv(w, scale)) == w / scale
    ensures scale == 1 ==> ToU32(TruncDiv(w, scale)) == w
  {
  }

  // ------------------------------------------------------------------ handle_events

  /** Whether `handle_events` draws for the event it takes: a configure to new dimensions, or a data change. */
  predicate DrawsOn(slot: Option<RenderEvent>, dimensions: (U32, U32))
  {
    match slot
    case Some(Configure(w, h)) => dimensions != (w, h)
    case Some(DataChanged) => true
    case _ => false
  }

  /** The dimensions after `handle_events`: those of a configure, otherwise unchanged. */
  function DimensionsAfter(slot: Option<RenderEvent>, dimensions: (U32, U32)): (U32, U32)
  {
    match slot
    case Some(Configure(w, h)) => (w, h)
    case _ => dimensions
  }

  /** The fields of a surface that `handle_events` reads and writes. */
  datatype SurfaceState = SurfaceState(
    nextRenderEvent: Option<RenderEvent>,
    mode: Option<Mode>,
    scale: int,
    dimensions: (U32, U32),
    layerRequests: seq<LayerRequest>,
    frames: seq<seq<Byte>>)

  /** `handle_events` would not panic: `resize` can divide, and a draw it makes can fill its buffer. */
  predicate HandleReady(st: SurfaceState, status: Option<UPower.PowerState>, info: OutputInfo)
  {
    && ResizeDefined(info)
    && (DrawsOn(st.nextRenderEvent, st.dimensions) ==>
          CanDraw(DimensionsAfter(st.nextRenderEvent, st.dimensions).0, DimensionsAfter(st.nextRenderEvent, st.dimensions).1, status))
  }

  /**
   * The state `handle_events` leaves: the slot emptied, the resize done, the dimensions of a
   * configure taken, and one frame drawn exactly when the taken event asked for one and the
   * surface is not empty.
   */
  function AfterHandle(st: SurfaceState, colors: DrawColors, status: Option<UPower.PowerState>, info: OutputInfo): SurfaceState
    requires HandleReady(st, status, info)
  {
    var dims := DimensionsAfter(st.nextRenderEvent, st.dimensions);
    SurfaceState(
      None,
      st.mode,
      ScaleAfterResize(st.mode, st.scale, info),
      dims,
      st.layerRequests + ResizeRequests(st.mode, st.scale, info),
      st.frames + if DrawsOn(st.nextRenderEvent, st.dimensions) then DrawnFrames(dims.0, dims.1, colors, status) else [])
  }

  /** A configure to the dimensions already in place draws nothing; one to new dimensions draws with them. */
  lemma ConfigureDrawsOnlyOnChange(st: SurfaceState, colors: DrawColors, status: Option<UPower.PowerState>, info: OutputInfo, w: U32, h: U32)
    requires st.nextRenderEvent == Some(Configure(w, h)) && HandleReady(st, status, info)
    ensures AfterHandle(st, colors, status, info).dimensions == (w, h)
    ensures st.dimensions == (w, h) ==> AfterHandle(st, colors, status, info).frames == st.frames
    ensures st.dimensions != (w, h) ==> AfterHandle(st, colors, status, info).frames == st.frames + DrawnFrames(w, h, colors, status)
  {
  }

  /** A data change always calls `draw`, which adds a frame unless the surface is empty. */
  lemma DataChangedAlwaysDraws(st: SurfaceState, colors: DrawColors, status: Option<UPower.PowerState>, info: OutputInfo)
    requires st.nextRenderEvent == Some(DataChanged) && HandleReady(st, status, info)
    ensures var after := AfterHandle(st, colors, status, info);
      && after.dimensions == st.dimensions
      && |after.frames| == |st.frames| + (if st.dimensions.0 == 0 || st.dimensions.1 == 0 then 0 else 1)
  {
  }

  /** Closed and an empty slot draw nothing and keep the dimensions. */
  lemma ClosedOrEmptyDrawsNothing(st: SurfaceState, colors: DrawColors, status: Option<UPower.PowerState>, info: OutputInfo)
    requires (st.nextRenderEvent == None || st.nextRenderEvent == Some(Closed)) && HandleReady(st, status, info)
    ensures AfterHandle(st, colors, status, info).frames == st.frames
    ensures AfterHandle(st, colors, status, info).dimensions == st.dimensions
  {
  }

  /** One layer-shell surface on one output. */
  class Surface {
    /** The single-slot cell shared with the layer-surface callback. */
    var nextRenderEvent: Option<RenderEvent>
    /** Never assigned after construction. */
    var mode: Option<Mode>
    var scale: int
    var dimensions: (U32, U32)
    /** The size and exclusive-zone requests sent on the layer surface, in order. */
    var layerRequests: seq<LayerRequest>
    /** The buffers committed by `draw`, in order. */
    var frames: seq<seq<Byte>>
    /** The shared power status the reporter writes. */
    const reporter: UPower.Reporter
    const colors: DrawColors

    function State(): SurfaceState
      reads this
    {
      SurfaceState(nextRenderEvent, mode, scale, dimensions, layerRequests, frames)
    }

    /** `Surface::new`: an empty slot, no mode, scale 1, dimensions (0, 0), then one `resize`. */
    constructor (reporter: UPower.Reporter, colors: DrawColors, info: OutputInfo)
      requires ResizeDefined(info)
      ensures this.reporter == reporter && this.colors == colors
      ensures State() == SurfaceState(None, None, ScaleAfterResize(None, 1, info), (0, 0), ResizeRequests(None, 1, info), [])
    {
      this.reporter := reporter;
      this.colors := colors;
      nextRenderEvent := None;
      mode := None;
      scale := 1;
      dimensions := (0, 0);
      layerRequests := [];
      frames := [];
      new;
      Resize(info);
    }

    /** The layer-surface callback. */
    method OnLayerEvent(ev: LayerEvent)
      modifies this`nextRenderEvent
      ensures nextRenderEvent == AfterLayerEvent(old(nextRenderEvent), ev)
    {
      match ev
      case LayerClosed =>
        nextRenderEvent := Some(Closed);
      case LayerConfigure(_, w, h) =>
        if nextRenderEvent != Some(Closed) {
          nextRenderEvent := Some(Configure(w, h));
        }
    }

    /** This surface's part of the power-update callback. */
    method OnPowerUpdate()
      modifies this`nextRenderEvent
      ensures nextRenderEvent == AfterPowerUpdate(old(nextRenderEvent))
    {
      if nextRenderEvent.None? {
        nextRenderEvent := Some(DataChanged);
      }
    }

    /** `resize`: skip when nothing changed, otherwise request the scaled width and take the new scale. */
    method Resize(info: OutputInfo)
      requires ResizeDefined(info)
      modifies this`layerRequests, this`scale
      ensures layerRequests == old(layerRequests) + ResizeRequests(mode, old(scale), info)
      ensures scale == ScaleAfterResize(mode, old(scale), info)
    {
      var current := CurrentMode(info.modes);
      if Dimensions(mode) == Dimensions(current) && scale == info.scaleFactor {
        return;
      }
      if current.Some? {
        layerRequests := layerRequests + [SetSize(ToU32(TruncDiv(current.value.width, info.scaleFactor)), 3)];
        layerRequests := layerRequests + [SetExclusiveZone(3)];
        scale := info.scaleFactor;
      }
    }

    /**
     * `draw`: nothing for an empty surface; otherwise one committed buffer holding the bar for
     * the current snapshot (read through the shared status).
     */
    method Draw()
      requires CanDraw(dimensions.0, dimensions.1, reporter.status)
      modifies this`frames
      ensures frames == old(frames) + DrawnFrames(dimensions.0, dimensions.1, colors, reporter.status)
    {
      if dimensions.0 == 0 || dimensions.1 == 0 {
        return;
      }
      var width: nat, height: nat := dimensions.0, dimensions.1;
      var status := reporter.status;
      var pct := Pct(status);
      var base := BaseColor(colors, status);
      var fg := colors.pack(base);
      var bg := colors.pack(colors.darken(base, 0.5));
      var fill := FillPixels(width, pct);
      var canvas := new Byte[4 * width * height];
      FillBuffer(canvas, width, height, fill, fg, bg);
      frames := frames + [canvas[..]];
    }

    /** `handle_events`: returns true exactly when the taken event was Closed. */
    method HandleEvents(info: OutputInfo) returns (closed: bool)
      requires HandleReady(State(), reporter.status, info)
      modifies this
      ensures State() == AfterHandle(old(State()), colors, reporter.status, info)
      ensures closed <==> old(nextRenderEvent) == Some(Closed)
    {
      Resize(info);
      var event := nextRenderEvent;
      nextRenderEvent := None;
      match event
      case Some(Closed) =>
        closed := true;
      case Some(Configure(w, h)) =>
        if dimensions != (w, h) {
          dimensions := (w, h);
          Draw();
        }
        closed := false;
      case Some(DataChanged) =>
        Draw();
        closed := false;
      case None =>
        closed := false;
    }
  }

  // ------------------------------------------------------------------ the surface list

  /** wl_output's global id. */
  type OutputId = U32

  /** The surface object of entry `a`. */
  function SurfaceAt(s: seq<(OutputId, Surface)>, a: nat): Surface
    requires a < |s|
  {
    s[a].1
  }

  /** No surface object appears twice in the list. */
  predicate DistinctSurfaces(s: seq<(OutputId, Surface)>)
  {
    forall a: nat, b: nat :: a < b < |s| ==> SurfaceAt(s, a) != SurfaceAt(s, b)
  }

  /** The entries whose flag is false, in order (`Vec::retain`, and the removal loop of the main loop). */
  function Retain(s: seq<(OutputId, Surface)>, drop: seq<bool>): seq<(OutputId, Surface)>
    requires |drop| == |s|
  {
    if s == [] then []
    else Retain(s[..|s| - 1], drop[..|s| - 1]) + (if drop[|s| - 1] then [] else [s[|s| - 1]])
  }

  /** Retain keeps exactly the unflagged entries. */
  lemma {:induction false} RetainKeepsUnflagged(s: seq<(OutputId, Surface)>, drop: seq<bool>)
    requires |drop| == |s|
    ensures forall e :: e in Retain(s, drop) <==> exists k :: 0 <= k < |s| && s[k] == e && !drop[k]
  {
    if s != [] {
      var front, dfront := s[..|s| - 1], drop[..|s| - 1];
      RetainKeepsUnflagged(front, dfront);
      forall e
        ensures e in Retain(s, drop) <==> exists k :: 0 <= k < |s| && s[k] == e && !drop[k]
      {
        if e in Retain(s, drop) && e != s[|s| - 1] {
          assert e in Retain(front, dfront);
          var k :| 0 <= k < |front| && front[k] == e && !dfront[k];
          assert s[k] == e && !drop[k];
        }
        if exists k :: 0 <= k < |s| && s[k] == e && !drop[k] {
          var k :| 0 <= k < |s| && s[k] == e && !drop[k];
          if k < |front| {
            assert front[k] == e && !dfront[k];
          }
        }
      }
    }
  }

  /** Where a kept entry came from. */
  lemma RetainedFrom(s: seq<(OutputId, Surface)>, drop: seq<bool>, e: (OutputId, Surface)) returns (k: nat)
    requires |drop| == |s| && e in Retain(s, drop)
    ensures k < |s| && s[k] == e && !drop[k]
  {
    RetainKeepsUnflagged(s, drop);
    assert exists k :: 0 <= k < |s| && s[k] == e && !drop[k];
    k :| 0 <= k < |s| && s[k] == e && !drop[k];
  }

  /** Retain keeps the order of what it keeps, so a list without repeated surfaces stays without them. */
  lemma {:induction false} RetainKeepsDistinct(s: seq<(OutputId, Surface)>, drop: seq<bool>)
    requires |drop| == |s| && DistinctSurfaces(s)
    ensures DistinctSurfaces(Retain(s, drop))
  {
    if s != [] {
      var front, dfront := s[..|s| - 1], drop[..|s| - 1];
      forall a: nat, b: nat | a < b < |front|
        ensures SurfaceAt(front, a) != SurfaceAt(front, b)
      {
        assert SurfaceAt(s, a) != SurfaceAt(s, b);
      }
      RetainKeepsDistinct(front, dfront);
      var r := Retain(front, dfront);
      forall a | 0 <= a < |r|
        ensures r[a].1 != s[|s| - 1].1
      {
        var k := RetainedFrom(front, dfront, r[a]);
        assert SurfaceAt(s, k) != SurfaceAt(s, |s| - 1);
      }
      var t := Retain(s, drop);
      forall a: nat, b: nat | a < b < |t|
        ensures SurfaceAt(t, a) != SurfaceAt(t, b)
      {
        if b < |r| {
          assert SurfaceAt(r, a) != SurfaceAt(r, b);
        }
      }
    }
  }

  /** Every listed surface draws from `reporter` with `colors`. */
  ghost predicate SharedBy(s: seq<(OutputId, Surface)>, reporter: UPower.Reporter, colors: DrawColors)
  {
    forall k :: 0 <= k < |s| ==> s[k].1.reporter == reporter && s[k].1.colors == colors
  }

  /** What retain keeps still draws from the same reporter with the same colours. */
  lemma RetainKeepsShared(s: seq<(OutputId, Surface)>, drop: seq<bool>, reporter: UPower.Reporter, colors: DrawColors)
    requires |drop| == |s| && SharedBy(s, reporter, colors)
    ensures SharedBy(Retain(s, drop), reporter, colors)
  {
    var t := Retain(s, drop);
    forall k | 0 <= k < |t|
      ensures t[k].1.reporter == reporter && t[k].1.colors == colors
    {
      var m := RetainedFrom(s, drop, t[k]);
    }
  }

  /** When the removal loop stops, nothing is left unvisited and the list is the whole retain. */
  lemma DrainDone(s: seq<(OutputId, Surface)>, drop: seq<bool>, j: nat, kept: seq<(OutputId, Surface)>)
    requires |drop| == |s| && j <= |s| && kept == Retain(s[..j], drop[..j]) && |kept + s[j..]| == |kept|
    ensures j == |s| && kept + s[j..] == Retain(s, drop)
  {
    assert s[..j] == s && drop[..j] == drop;
    assert kept + s[j..] == kept;
  }

  lemma RetainStep(s: seq<(OutputId, Surface)>, drop: seq<bool>, j: nat)
    requires |drop| == |s| && j < |s|
    ensures Retain(s[..j + 1], drop[..j + 1]) == Retain(s[..j], drop[..j]) + (if drop[j] then [] else [s[j]])
  {
    assert s[..j + 1][..j] == s[..j] && drop[..j + 1][..j] == drop[..j];
  }

  /**
   * One step of the removal loop: the list is the kept prefix then the unvisited rest, and
   * removing or keeping the next entry leaves the next kept prefix then the shorter rest.
   */
  lemma DrainStep(s: seq<(OutputId, Surface)>, drop: seq<bool>, j: nat, kept: seq<(OutputId, Surface)>)
    requires |drop| == |s| && j < |s| && kept == Retain(s[..j], drop[..j])
    ensures var l := kept + s[j..];
      && |kept| < |l| && l[|kept|] == s[j]
      && Retain(s[..j + 1], drop[..j + 1]) == kept + (if drop[j] then [] else [s[j]])
      && (drop[j] ==> l[..|kept|] + l[|kept| + 1..] == kept + s[j + 1..])
      && (!drop[j] ==> l == (kept + [s[j]]) + s[j + 1..])
  {
    RetainStep(s, drop, j);
    assert s[j..] == [s[j]] + s[j + 1..];
  }

  /** Which entries belong to output `id`. */
  function OfOutput(s: seq<(OutputId, Surface)>, id: OutputId): (r: seq<bool>)
    ensures |r| == |s|
  {
    seq(|s|, k requires 0 <= k < |s| => s[k].0 == id)
  }

  /** Removing an obsolete output drops every entry of that output and keeps every other entry. */
  lemma RemoveOutput(s: seq<(OutputId, Surface)>, id: OutputId)
    ensures forall e :: e in Retain(s, OfOutput(s, id)) <==> e in s && e.0 != id
  {
    RetainKeepsUnflagged(s, OfOutput(s, id));
  }

  /** The states of the listed surfaces. */
  function States(s: seq<(OutputId, Surface)>): (r: seq<SurfaceState>)
    reads set k | 0 <= k < |s| :: s[k].1
    ensures |r| == |s|
  {
    seq(|s|, k requires 0 <= k < |s| reads set m | 0 <= m < |s| :: s[m].1 => s[k].1.State())
  }

  /** Which of the given states have Closed pending. */
  function ClosedFlags(states: seq<SurfaceState>): (r: seq<bool>)
    ensures |r| == |states|
  {
    seq(|states|, k requires 0 <= k < |states| => states[k].nextRenderEvent == Some(Closed))
  }

  /** The main function's state: the surface list and what every new surface shares. */
  class App {
    var surfaces: seq<(OutputId, Surface)>
    const reporter: UPower.Reporter
    const colors: DrawColors

    /** Surfaces are listed once each and all draw from the shared status. */
    ghost predicate Valid()
      reads this
    {
      && DistinctSurfaces(surfaces)
      && SharedBy(surfaces, reporter, colors)
    }

    function Objects(): set<Surface>
      reads this
    {
      set k | 0 <= k < |surfaces| :: surfaces[k].1
    }

    constructor (reporter: UPower.Reporter, colors: DrawColors)
      ensures Valid() && surfaces == [] && this.reporter == reporter && this.colors == colors
    {
      surfaces := [];
      this.reporter := reporter;
      this.colors := colors;
    }

    /**
     * The output handler: an obsolete output's entries are all removed, keeping the order of the
     * rest; a new output gets a new surface at the end of the list.
     */
    method OnOutput(id: OutputId, info: OutputInfo, obsolete: bool)
      requires Valid()
      requires !obsolete ==> ResizeDefined(info)
      modifies this
      ensures Valid()
      ensures obsolete ==> surfaces == Retain(old(surfaces), OfOutput(old(surfaces), id))
      ensures !obsolete ==>
        && |surfaces| == |old(surfaces)| + 1
        && surfaces[..|old(surfaces)|] == old(surfaces)
        && surfaces[|old(surfaces)|].0 == id
        && fresh(surfaces[|old(surfaces)|].1)
        && surfaces[|old(surfaces)|].1.State()
             == SurfaceState(None, None, ScaleAfterResize(None, 1, info), (0, 0), ResizeRequests(None, 1, info), [])
    {
      if obsolete {
        RetainKeepsDistinct(surfaces, OfOutput(surfaces, id));
        RetainKeepsShared(surfaces, OfOutput(surfaces, id), reporter, colors);
        surfaces := Retain(surfaces, OfOutput(surfaces, id));
      } else {
        var surface := new Surface(reporter, colors, info);
        ghost var before := surfaces;
        surfaces := surfaces + [(id, surface)];
        forall a: nat, b: nat | a < b < |surfaces|
          ensures SurfaceAt(surfaces, a) != SurfaceAt(surfaces, b)
        {
          if b < |before| {
            assert SurfaceAt(before, a) != SurfaceAt(before, b);
          }
        }
      }
    }

    /** The power-update callback: every surface with an empty slot gets DataChanged. */
    method NotifyPowerUpdate()
      requires Valid()
      modifies Objects()`nextRenderEvent
      ensures forall k :: 0 <= k < |surfaces| ==>
        surfaces[k].1.nextRenderEvent == AfterPowerUpdate(old(surfaces[k].1.nextRenderEvent))
    {
      for i := 0 to |surfaces|
        invariant forall k :: 0 <= k < i ==>
          surfaces[k].1.nextRenderEvent == AfterPowerUpdate(old(surfaces[k].1.nextRenderEvent))
        invariant forall k :: i <= k < |surfaces| ==> surfaces[k].1.nextRenderEvent == old(surfaces[k].1.nextRenderEvent)
      {
        label BeforeCall:
        surfaces[i].1.OnPowerUpdate();
        forall k | 0 <= k < |surfaces| && k != i
          ensures surfaces[k].1.nextRenderEvent == old@BeforeCall(surfaces[k].1.nextRenderEvent)
        {
          assert SurfaceAt(surfaces, k) != SurfaceAt(surfaces, i);
        }
      }
    }

    /**
     * The main loop's pass over the surfaces: `handle_events` runs once on every surface, and
     * exactly those whose taken event was Closed are removed, the rest keeping their order.
     */
    method DrainSurfaces(infoOf: OutputId -> OutputInfo)
      requires Valid()
      requires forall k {:trigger HandleReady(surfaces[k].1.State(), reporter.status, infoOf(surfaces[k].0))} :: 0 <= k < |surfaces| ==>
        HandleReady(surfaces[k].1.State(), reporter.status, infoOf(surfaces[k].0))
      modifies this, Objects()
      ensures Valid() && reporter.status == old(reporter.status)
      ensures surfaces == Retain(old(surfaces), ClosedFlags(old(States(surfaces))))
      ensures forall k :: 0 <= k < |old(surfaces)| ==>
        old(surfaces)[k].1.State() == AfterHandle(old(States(surfaces))[k], colors, old(reporter.status), infoOf(old(surfaces)[k].0))
    {
      ghost var status := reporter.status;
      ghost var s0 := surfaces;
      ghost var st0 := States(surfaces);
      ghost var flags := ClosedFlags(st0);
      assert forall k {:trigger SurfaceAt(s0, k)} :: 0 <= k < |s0| ==> SurfaceAt(s0, k).State() == st0[k];
      var i: nat := 0;
      ghost var j: nat := 0;
      ghost var kept: seq<(OutputId, Surface)> := [];
      while i != |surfaces|
        invariant Drained(s0, st0, status, infoOf, j, kept, i) && reporter.status == status
        decreases |s0| - j
      {
        i, kept := HandleOrRemove(i, infoOf(surfaces[i].0), s0, st0, status, infoOf, j, kept);
        j := j + 1;
      }
      DrainDone(s0, flags, j, kept);
      RetainKeepsDistinct(s0, flags);
      RetainKeepsShared(s0, flags, reporter, colors);
      forall k | 0 <= k < |s0|
        ensures s0[k].1.State() == AfterHandle(st0[k], colors, status, infoOf(s0[k].0))
      {
        assert SurfaceAt(s0, k).State() == AfterHandle(st0[k], colors, status, infoOf(s0[k].0));
      }
    }

    /**
     * The removal loop's invariant once it has visited the first `j` entries of the list `s0` it
     * started from, whose states were `st0`: the list is the `i` entries it kept of those, then
     * the unvisited rest; the visited surfaces have handled their events and the rest are untouched.
     */
    ghost predicate Drained(s0: seq<(OutputId, Surface)>, st0: seq<SurfaceState>, status: Option<UPower.PowerState>,
                            infoOf: OutputId -> OutputInfo, j: nat, kept: seq<(OutputId, Surface)>, i: nat)
      reads this, set k | 0 <= k < |s0| :: s0[k].1
    {
      && |st0| == |s0| && j <= |s0|
      && (forall k {:trigger HandleReady(st0[k], status, infoOf(s0[k].0))} :: 0 <= k < |s0| ==> HandleReady(st0[k], status, infoOf(s0[k].0)))
      && kept == Retain(s0[..j], ClosedFlags(st0)[..j]) && surfaces == kept + s0[j..] && i == |kept|
      && forall k {:trigger SurfaceAt(s0, k)} :: 0 <= k < |s0| ==>
           SurfaceAt(s0, k).State() == if k < j then AfterHandle(st0[k], colors, status, infoOf(s0[k].0)) else st0[k]
    }

    /**
     * One pass of the removal loop at index `i`: the entry handles its events and is removed when
     * they closed it, otherwise the index moves past it. `j` and `kept` are the loop's bookkeeping.
     */
    method HandleOrRemove(i: nat, info: OutputInfo, ghost s0: seq<(OutputId, Surface)>, ghost st0: seq<SurfaceState>,
                          ghost status: Option<UPower.PowerState>, ghost infoOf: OutputId -> OutputInfo,
                          ghost j: nat, ghost kept: seq<(OutputId, Surface)>)
      returns (next: nat, ghost kept': seq<(OutputId, Surface)>)
      requires Drained(s0, st0, status, infoOf, j, kept, i) && i < |surfaces| && info == infoOf(surfaces[i].0)
      requires DistinctSurfaces(s0) && SharedBy(s0, reporter, colors) && reporter.status == status
      modifies this, SurfaceAt(s0, j)
      ensures Drained(s0, st0, status, infoOf, j + 1, kept', next) && reporter.status == status
    {
      DrainStep(s0, ClosedFlags(st0), j, kept);
      var surface := surfaces[i].1;
      assert surface == SurfaceAt(s0, j) && surface.State() == st0[j];
      var closed := surface.HandleEvents(info);
      if closed {
        surfaces := surfaces[..i] + surfaces[i + 1..];
        next, kept' := i, kept;
      } else {
        next, kept' := i + 1, kept + [s0[j]];
      }
      forall k | 0 <= k < |s0| && k != j
        ensures SurfaceAt(s0, k).State() == old(SurfaceAt(s0, k).State())
      {
        assert SurfaceAt(s0, k) != SurfaceAt(s0, j);
      }
    }
  }
}

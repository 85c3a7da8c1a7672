/** fast_hsv2rgb_32bit.c with the macros of fast_hsv2rgb.h: hue, saturation and value to red, green and blue
    without a division. */
module Hsv {

  type byte = x: nat | x < 256

  const HUE_STEPS := 1536          // six sextants of 256
  const FULL := 65280              // 255 * 256

  // ---------- the intended colour ----------

  /** v times x / 65280, by shifts. */
  function Slope(v: byte, x: nat): nat {
    (v * x + v * x / 256 + v) / 65536
  }

  function Bottom(s: byte, v: byte): nat {
    Product(v, 255 - s);
    v * (255 - s) / 255
  }

  /** v diminished by f parts in 256 of the saturation. */
  function Level(s: byte, v: byte, f: nat): nat
    requires f <= 256
  {
    Room(s, f);
    Slope(v, FULL - s * f)
  }

  /** One component over a turn of the hue: it rises, stays at v for two sextants, falls, and stays at the
      bottom for two. */
  function Wave(p: nat, s: byte, v: byte): nat {
    if p < 256 then Level(s, v, 256 - p)
    else if p < 768 then v
    else if p < 1024 then Level(s, v, p - 768)
    else Bottom(s, v)
  }

  datatype Rgb = Rgb(r: nat, g: nat, b: nat)

  /** The hue k steps further on the circle. */
  function Turn(h: nat, k: nat): nat {
    if h + k < HUE_STEPS then h + k else h + k - HUE_STEPS
  }

  /** The three components are a third of a turn apart. */
  function Colour(h: nat, s: byte, v: byte): Rgb {
    Rgb(Wave(Turn(h, 512), s, v), Wave(h, s, v), Wave(Turn(h, 1024), s, v))
  }

  /** Hues past the last sextant are taken from it. */
  function Clamp(h: nat): nat {
    if h / 256 > 5 then 5 * 256 + h % 256 else h
  }

  /** A hue of the wheel is itself, any other the one at the same place of the last sextant. */
  lemma ClampMeaning(h: nat)
    ensures Clamp(h) < HUE_STEPS && Clamp(h) % 256 == h % 256
    ensures h < HUE_STEPS ==> Clamp(h) == h
    ensures h >= HUE_STEPS ==> Clamp(h) / 256 == 5
  {
  }

  // ---------- arithmetic of the slope ----------

  lemma ScaleLeft(a: nat, b: nat, c: nat)
    requires a <= b
    ensures a * c <= b * c
  {
  }

  lemma Product(a: nat, b: nat)
    ensures a * b >= 0
  {
  }

  lemma Room(s: byte, f: nat)
    requires f <= 256
    ensures 0 <= s * f <= 256 * s <= FULL
  {
    ScaleLeft(f, 256, s);
  }

  /** The slope by parts: q whole and t over make q, or q + 1 when t almost reaches the next one. */
  lemma SlopeByParts(v: byte, x: nat, q: nat, t: nat)
    requires x <= FULL && v * x == FULL * q + t && t < FULL
    ensures q <= v && Slope(v, x) == if t + t / 256 + v - q < 65536 then q else q + 1
  {
    ScaleLeft(x, FULL, v);
    assert FULL * q <= FULL * v;
    var d := v * x;
    assert d / 256 == 255 * q + t / 256;
    hide Slope;
    assert d + d / 256 + v == 65536 * q + (t + t / 256 + v - q);
    SlopeIs(v, x);
  }

  lemma SlopeIs(v: byte, x: nat)
    ensures Slope(v, x) == (v * x + v * x / 256 + v) / 65536
  {
  }

  /** The slope is the exact quotient rounded down, or exceeds it by less than 1/256. */
  lemma SlopeAccurate(v: byte, x: nat)
    requires x <= FULL
    ensures v * x < FULL * (Slope(v, x) + 1)
    ensures FULL * Slope(v, x) < v * x + 255
  {
    var q, t := v * x / FULL, v * x % FULL;
    SlopeByParts(v, x, q, t);
    hide Slope;
  }

  lemma SlopeFull(v: byte)
    ensures Slope(v, FULL) == v
  {
    SlopeByParts(v, FULL, v, 0);
  }

  lemma SlopeBottom(s: byte, v: byte)
    ensures Slope(v, FULL - 256 * s) == Bottom(s, v)
  {
    var y := v * (255 - s);
    var q, t := y / 255, y % 255;
    assert v * (FULL - 256 * s) == 256 * y;
    assert 256 * y == FULL * q + 256 * t;
    SlopeByParts(v, FULL - 256 * s, q, 256 * t);
  }

  lemma SlopeMonotone(v: byte, x: nat, x': nat)
    requires x <= x'
    ensures Slope(v, x) <= Slope(v, x')
  {
    ScaleLeft(x, x', v);
    SlopeIs(v, x);
    SlopeIs(v, x');
    hide Slope;
    SumMonotone(v * x, v * x', v);
  }

  lemma SumMonotone(d: nat, d': nat, v: nat)
    requires d <= d'
    ensures (d + d / 256 + v) / 65536 <= (d' + d' / 256 + v) / 65536
  {
  }

  lemma SlopeStep(v: byte, x: nat, s: byte)
    ensures Slope(v, x) <= Slope(v, x + s) <= Slope(v, x) + 1
  {
    SlopeMonotone(v, x, x + s);
    ScaleLeft(v, 255, s);
    assert v * (x + s) == v * x + v * s && v * s <= 65025;
    hide Slope;
    SlopeIs(v, x);
    SlopeIs(v, x + s);
  }

  lemma LevelEnds(s: byte, v: byte)
    ensures Level(s, v, 0) == v && Level(s, v, 256) == Bottom(s, v)
  {
    SlopeFull(v);
    SlopeBottom(s, v);
    hide Slope, Bottom;
    assert s * 0 == 0 && s * 256 == 256 * s;
  }

  lemma LevelBetween(s: byte, v: byte, f: nat)
    requires f <= 256
    ensures Bottom(s, v) <= Level(s, v, f) <= v
  {
    Room(s, f);
    SlopeFull(v);
    SlopeBottom(s, v);
    SlopeMonotone(v, FULL - 256 * s, FULL - s * f);
    SlopeMonotone(v, FULL - s * f, FULL);
    hide Slope, Bottom;
  }

  lemma LevelStep(s: byte, v: byte, f: nat)
    requires f < 256
    ensures Level(s, v, f + 1) <= Level(s, v, f) <= Level(s, v, f + 1) + 1
  {
    Room(s, f);
    Room(s, f + 1);
    assert s * (f + 1) == s * f + s;
    SlopeStep(v, FULL - s * (f + 1), s);
    hide Slope;
  }

  // ---------- what the colour is ----------

  /** Every value of the wave lies between the bottom and v. */
  lemma WaveBetween(p: nat, s: byte, v: byte)
    ensures Bottom(s, v) <= Wave(p, s, v) <= v
  {
    LevelEnds(s, v);
    LevelBetween(s, v, 256);
    hide Level, Bottom;
    if p < 256 {
      LevelBetween(s, v, 256 - p);
    } else if 768 <= p < 1024 {
      LevelBetween(s, v, p - 768);
    }
  }

  function Max(c: Rgb): nat {
    var m := if c.r > c.g then c.r else c.g;
    if m > c.b then m else c.b
  }

  function Min(c: Rgb): nat {
    var m := if c.r < c.g then c.r else c.g;
    if m < c.b then m else c.b
  }

  /** The largest component is v and the smallest the whole part of v * (255 - s) / 255, at every hue. */
  lemma Extremes(h: nat, s: byte, v: byte)
    requires h < HUE_STEPS
    ensures Max(Colour(h, s, v)) == v && Min(Colour(h, s, v)) == v * (255 - s) / 255
  {
    WaveBetween(Turn(h, 512), s, v);
    WaveBetween(h, s, v);
    WaveBetween(Turn(h, 1024), s, v);
    assert Bottom(s, v) == v * (255 - s) / 255;
    var c := Colour(h, s, v);
    hide Level, Bottom;
    assert v in {c.r, c.g, c.b} && Bottom(s, v) in {c.r, c.g, c.b};
    hide Wave, Colour;
  }

  /** x is v * part / 65280 rounded down, or exceeds it by less than 1/256. */
  predicate Near(x: nat, v: byte, part: int) {
    v * part < FULL * (x + 1) && FULL * x < v * part + 255
  }

  /** The colour, sextant by sextant: which component is v, which is at the bottom, and how far the third has risen
      or fallen. */
  lemma SextantColours(h: nat, s: byte, v: byte)
    requires h < HUE_STEPS
    ensures var c, f, bottom := Colour(h, s, v), h % 256, v * (255 - s) / 255;
            var up, down := FULL - s * (256 - f), FULL - s * f;
            && (h / 256 == 0 ==> c.r == v && Near(c.g, v, up) && c.b == bottom)
            && (h / 256 == 1 ==> Near(c.r, v, down) && c.g == v && c.b == bottom)
            && (h / 256 == 2 ==> c.r == bottom && c.g == v && Near(c.b, v, up))
            && (h / 256 == 3 ==> c.r == bottom && Near(c.g, v, down) && c.b == v)
            && (h / 256 == 4 ==> Near(c.r, v, up) && c.g == bottom && c.b == v)
            && (h / 256 == 5 ==> c.r == v && c.g == bottom && Near(c.b, v, down))
  {
    var f := h % 256;
    LevelEnds(s, v);
    LevelIsNear(s, v, 256 - f);
    LevelIsNear(s, v, f);
    BottomIs(s, v);
    hide Level, Near, Bottom;
  }

  lemma BottomIs(s: byte, v: byte)
    ensures Bottom(s, v) == v * (255 - s) / 255
  {
  }

  lemma LevelIsNear(s: byte, v: byte, f: nat)
    requires f <= 256
    ensures Near(Level(s, v, f), v, FULL - s * f)
  {
    Room(s, f);
    SlopeAccurate(v, FULL - s * f);
    hide Slope;
  }

  predicate Close(a: nat, b: nat) {
    a <= b + 1 && b <= a + 1
  }

  lemma WaveStep(p: nat, s: byte, v: byte)
    requires p < HUE_STEPS
    ensures Close(Wave(p, s, v), Wave(Turn(p, 1), s, v))
  {
    LevelEnds(s, v);
    hide Level, Bottom;
    if p < 256 {
      LevelStep(s, v, 256 - (p + 1));
    } else if 768 <= p < 1024 {
      LevelStep(s, v, p - 768);
    }
  }

  /** One step of the hue moves no component by more than 1: also from one sextant to the next, and round. */
  lemma HueStep(h: nat, s: byte, v: byte)
    requires h < HUE_STEPS
    ensures var c, c' := Colour(h, s, v), Colour(Turn(h, 1), s, v);
            Close(c.r, c'.r) && Close(c.g, c'.g) && Close(c.b, c'.b)
  {
    WaveStep(Turn(h, 512), s, v);
    WaveStep(h, s, v);
    WaveStep(Turn(h, 1024), s, v);
    hide Wave, Close;
    assert Turn(Turn(h, 1), 512) == Turn(Turn(h, 512), 1);
    assert Turn(Turn(h, 1), 1024) == Turn(Turn(h, 1024), 1);
  }

  /** Without saturation the wave is flat: leaving early with a grey is the same colour. */
  lemma GreyIsFlat(p: nat, v: byte)
    ensures Wave(p, 0, v) == v
  {
    WaveBetween(p, 0, v);
    assert Bottom(0, v) == v;
    hide Wave, Bottom;
  }

  // ---------- the computation ----------

  /** Dividing by 255 with two shifts, in 16 bits. */
  method DivideBy255(x: nat) returns (q: byte)
    requires x <= 255 * 255
    ensures q == x / 255
  {
    By255(x);
    hide Uint16;
    var ww := Uint16(x);
    ww := Uint16(ww + 1);
    ww := Uint16(ww + ww / 256);
    q := ww / 256;
  }

  function Uint16(x: nat): (r: nat)
    ensures x < 65536 ==> r == x
  {
    x % 65536
  }

  method BottomLevel(s: byte, v: byte) returns (b: byte)
    ensures b == Bottom(s, v)
  {
    Product(v, 255 - s);
    ScaleLeft(v, 255, 255 - s);
    b := DivideBy255(v * (255 - s));
  }

  lemma By255(x: nat)
    requires x <= 65025
    ensures (x + 1 + (x + 1) / 256) / 256 == x / 255 <= 255
    ensures x + 1 + (x + 1) / 256 < 65536
  {
    var q, t := x / 255, x % 255;
    assert x == 255 * q + t;
    assert x + 1 == 256 * q + (t + 1 - q);
  }

  /** Dividing by 65280 with two shifts, in 32 bits. */
  method Shifts(product: nat, v: byte) returns (r: byte)
    requires product <= FULL * v
    ensures r == (product + product / 256 + v) / 65536
  {
    NoWrap(product, v);
    hide Uint32;
    var d := Uint32(product);
    d := Uint32(d + d / 256);
    d := Uint32(d + v);
    r := d / 65536;
  }

  function Uint32(x: nat): (r: nat)
    ensures x < 0x1_0000_0000 ==> r == x
  {
    x % 0x1_0000_0000
  }

  lemma NoWrap(product: nat, v: byte)
    requires product <= FULL * v
    ensures product <= product + product / 256 <= product + product / 256 + v <= 65536 * v < 0x1_0000_0000
    ensures 0 <= (product + product / 256 + v) / 65536 < 256
  {
    assert product / 256 <= 255 * v;
  }

  /** The product of s and f goes through a cast to 16 bits. */
  method SlopeLevel(s: byte, v: byte, f: nat) returns (r: byte)
    requires f <= 256
    ensures r == Level(s, v, f)
  {
    Room(s, f);
    var part := Uint16(s * f);
    var x := FULL - part;
    ScaleLeft(x, FULL, v);
    Product(v, x);
    SlopeIs(v, x);
    r := Shifts(v * x, v);
  }

  /** HSV_POINTER_SWAP: which of the three cells gets the slope, the top and the bottom. */
  method PointerSwap(sextant: nat, r: nat, g: nat, b: nat) returns (slope: nat, top: nat, bottom: nat)
    requires sextant <= 5
    ensures (slope, top, bottom) == Roles(sextant, r, g, b)
  {
    var r', g', b' := r, g, b;
    if sextant / 2 % 2 == 1 {
      r', b' := b', r';
    }
    if sextant / 4 % 2 == 1 {
      g', b' := b', g';
    }
    if sextant / 2 % 2 == 0 && sextant / 4 % 2 == 0 {
      if sextant % 2 == 0 {
        r', g' := g', r';
      }
    } else {
      if sextant % 2 == 1 {
        r', g' := g', r';
      }
    }
    slope, top, bottom := r', g', b';
  }

  function Roles(sextant: nat, r: nat, g: nat, b: nat): (nat, nat, nat) {
    match sextant
    case 0 => (g, r, b)
    case 1 => (r, g, b)
    case 2 => (b, g, r)
    case 3 => (g, b, r)
    case 4 => (r, b, g)
    case _ => (b, r, g)
  }

  /** fast_hsv2rgb_32bit; r, g and b point to three different cells. */
  method FastHsv2Rgb32(h: nat, s: byte, v: byte, cells: array<byte>, r: nat, g: nat, b: nat)
    requires h < 65536 && r < cells.Length && g < cells.Length && b < cells.Length
    requires r != g && g != b && r != b
    modifies cells
    ensures Rgb(cells[r], cells[g], cells[b]) == Colour(Clamp(h), s, v)
    ensures forall i :: 0 <= i < cells.Length && i != r && i != g && i != b ==> cells[i] == old(cells[i])
  {
    if s == 0 {
      GreyIsFlat(Turn(Clamp(h), 512), v);
      GreyIsFlat(Clamp(h), v);
      GreyIsFlat(Turn(Clamp(h), 1024), v);
      hide Wave;
      cells[b] := v;
      cells[g] := v;
      cells[r] := v;
      return;
    }
    var sextant := h / 256;
    if sextant > 5 {
      sextant := 5;
    }
    var slope, top, bottom := PointerSwap(sextant, r, g, b);
    cells[top] := v;
    cells[bottom] := BottomLevel(s, v);
    var hFraction := h % 256;
    if sextant % 2 == 0 {
      cells[slope] := SlopeLevel(s, v, 256 - hFraction);
    } else {
      cells[slope] := SlopeLevel(s, v, hFraction);
    }
    ColourBySextant(sextant, hFraction, s, v);
    hide Level, Bottom, Colour;
  }

  /** In each sextant one component is the slope, one is v and one is the bottom. */
  lemma ColourBySextant(sextant: nat, f: nat, s: byte, v: byte)
    requires sextant <= 5 && f < 256
    ensures var c := Colour(256 * sextant + f, s, v);
            var slope := Level(s, v, if sextant % 2 == 0 then 256 - f else f);
            Roles(sextant, c.r, c.g, c.b) == (slope, v, Bottom(s, v))
  {
    LevelEnds(s, v);
    hide Level, Bottom;
  }
}

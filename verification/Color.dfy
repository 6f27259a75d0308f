/** Conversions among RGB, HSL and HSV colours, over exact real numbers. */
module Color {
  import opened BaseMath

  datatype Rgba = Rgba(r: real, g: real, b: real, a: real)
  datatype Hsla = Hsla(h: real, s: real, l: real, a: real)
  datatype Hsva = Hsva(h: real, s: real, v: real, a: real)

  function Min(x: real, y: real): real {
    if x < y then x else y
  }

  function Max(x: real, y: real): real {
    if x > y then x else y
  }

  function Least(c: Rgba): real {
    Min(Min(c.r, c.g), c.b)
  }

  function Most(c: Rgba): real {
    Max(Max(c.r, c.g), c.b)
  }

  /** The hue in sixths of the circle. */
  function Sixths(r: real, g: real, b: real, c: real): real
    requires c != 0.0
  {
    if r >= g && r >= b then (g - b) / c + (if g < b then 6.0 else 0.0)
    else if g >= b then (b - r) / c + 2.0
    else (r - g) / c + 4.0
  }

  function RgbToHue(c: Rgba): real {
    (if Most(c) != Least(c) then Sixths(c.r, c.g, c.b, Most(c) - Least(c)) else 0.0) / 6.0
  }

  /** The widest chroma that a lightness leaves room for. */
  function Room(l: real): real {
    1.0 - Abs(2.0 * l - 1.0)
  }

  function Lightness(c: Rgba): real {
    0.5 * (Most(c) + Least(c))
  }

  /** The conversion does not divide by zero. */
  predicate Convertible(c: Rgba) {
    Most(c) != 0.0 && Least(c) != 1.0 ==> Room(Lightness(c)) != 0.0
  }

  function Saturation(hi: real, lo: real, l: real): real
    requires hi != 0.0 && lo != 1.0 ==> Room(l) != 0.0
  {
    if hi != 0.0 && lo != 1.0 then (hi - lo) / Room(l) else 0.0
  }

  function RgbToHsl(c: Rgba): Hsla
    requires Convertible(c)
  {
    Hsla(RgbToHue(c), Saturation(Most(c), Least(c), Lightness(c)), Lightness(c), c.a)
  }

  /** Remainder of a division that rounds towards zero. */
  function Fmod(x: real, y: real): real
    requires y != 0.0
  {
    x - y * (Truncate(x / y) as real)
  }

  /** The three primaries before the lightness is added, by sector; sector 6 is the end of the circle. */
  function Primaries(sector: int, c: real, x: real): (real, real, real) {
    match sector
    case 0 => (c, x, 0.0)
    case 1 => (x, c, 0.0)
    case 2 => (0.0, c, x)
    case 3 => (0.0, x, c)
    case 4 => (x, 0.0, c)
    case 5 => (c, 0.0, x)
    case 6 => (c, 0.0, x)
    case _ => (0.0, 0.0, 0.0)
  }

  /** How far the second primary is on its way, from 0 up to 1 and down again. */
  function Triangle(h: real): real {
    1.0 - Abs(Fmod(h, 2.0) - 1.0)
  }

  /** The second primary. */
  function Second(c: real, h: real): real {
    c * Triangle(h)
  }

  /** The colour of a chroma `c` at `h` sixths of the circle. */
  function Compose(h: real, c: real, l: real, a: real): Rgba {
    var p := Primaries(Truncate(h), c, Second(c, h));
    var m := l - c / 2.0;
    Rgba(p.0 + m, p.1 + m, p.2 + m, a)
  }

  function Chroma(l: real, s: real): real {
    Room(l) * s
  }

  function HueSixths(k: Hsla): real {
    k.h * 6.0
  }

  function HslToRgb(k: Hsla): Rgba {
    Compose(HueSixths(k), Chroma(k.l, k.s), k.l, k.a)
  }

  /** How far a lightness is from its nearer end. */
  function Headroom(l: real): real {
    Min(l, 1.0 - l)
  }

  function HslSaturation(v: real, l: real): real {
    if l == 0.0 || l == 1.0 then 0.0 else (v - l) / Headroom(l)
  }

  function HsvToHsl(k: Hsva): Hsla {
    var l := k.v * (1.0 - k.s * 0.5);
    Hsla(k.h, HslSaturation(k.v, l), l, k.a)
  }

  function HsvSaturation(l: real, v: real): real {
    if v == 0.0 then 0.0 else 2.0 - 2.0 * l / v
  }

  function Value(l: real, s: real): real {
    l + s * Headroom(l)
  }

  function HslToHsv(k: Hsla): Hsva {
    var v := Value(k.l, k.s);
    Hsva(k.h, HsvSaturation(k.l, v), v, k.a)
  }

  function HsvToRgb(k: Hsva): Rgba {
    HslToRgb(HsvToHsl(k))
  }

  function RgbToHsv(c: Rgba): Hsva
    requires Convertible(c)
  {
    HslToHsv(RgbToHsl(c))
  }

  predicate Unit(x: real) {
    0.0 <= x <= 1.0
  }

  predicate UnitRgb(c: Rgba) {
    Unit(c.r) && Unit(c.g) && Unit(c.b)
  }

  // ----- pieces -----

  lemma FloorIs(x: real, k: int)
    requires k as real <= x < k as real + 1.0
    ensures x.Floor == k
  {
  }

  /** The sector of a hue and the triangle on it. */
  lemma SectorIs(h: real, k: nat)
    requires k < 6 && k as real <= h < k as real + 1.0
    ensures Truncate(h) == k
    ensures Triangle(h) == if k % 2 == 0 then h - k as real else k as real + 1.0 - h
  {
    FloorIs(h, k);
    FloorIs(h / 2.0, k / 2);
    assert k == 2 * (k / 2) + k % 2;
  }

  lemma QuotientIs(a: real, c: real, q: real)
    requires c > 0.0 && q == a / c
    ensures c * q == a
    ensures 0.0 <= a ==> 0.0 <= q
    ensures a < c ==> q < 1.0
    ensures a == c ==> q == 1.0
  {
    if q >= 1.0 {
      var d := q - 1.0;
      assert d * c >= 0.0;
      assert d * c == a - c;
    }
  }

  // ----- RGB to HSL and back -----

  /** The primaries that a hue stands for are the channels above the least of them. */
  predicate Restores(r: real, g: real, b: real, least: real, c: real, h: real) {
    0.0 <= h < 6.0 && Primaries(Truncate(h), c, Second(c, h)) == (r - least, g - least, b - least)
  }

  /** On a rising side of the triangle the second primary is the quotient itself. */
  lemma Rising(k: nat, a: real, c: real, h: real)
    requires k < 6 && k % 2 == 0 && c > 0.0 && 0.0 <= a < c && h == a / c + k as real
    ensures Truncate(h) == k && Second(c, h) == a
  {
    QuotientIs(a, c, a / c);
    SectorIs(h, k);
  }

  /** On a falling side it is what the quotient leaves. */
  lemma Falling(k: nat, a: real, c: real, h: real)
    requires k < 6 && k % 2 == 1 && c > 0.0 && 0.0 < a <= c && h == k as real + 1.0 - a / c
    ensures Truncate(h) == k && Second(c, h) == a
  {
    var q := a / c;
    QuotientIs(a, c, q);
    assert q > 0.0;
    SectorIs(h, k);
  }

  lemma Negated(a: real, c: real)
    requires c != 0.0
    ensures -a / c == -(a / c)
  {
  }

  /** A hue whose quotient has reached one is the start of the next, falling side. */
  lemma Peak(k: nat, a: real, c: real, h: real)
    requires k < 5 && k % 2 == 0 && c > 0.0 && a == c && h == a / c + k as real
    ensures Truncate(h) == k + 1 && Second(c, h) == c
  {
    QuotientIs(a, c, a / c);
    Falling(k + 1, a, c, h);
  }

  lemma RedRestores(r: real, g: real, b: real, c: real)
    requires r >= g && r >= b && c == r - Min(g, b) > 0.0
    ensures Restores(r, g, b, Min(g, b), c, Sixths(r, g, b, c))
  {
    var h := Sixths(r, g, b, c);
    if g < b {
      Negated(b - g, c);
      assert g - b == -(b - g);
      Falling(5, b - g, c, h);
    } else if g - b < c {
      Rising(0, g - b, c, h);
    } else {
      Peak(0, g - b, c, h);
    }
  }

  lemma GreenRestores(r: real, g: real, b: real, c: real)
    requires r < g && g >= b && c == g - Min(r, b)
    ensures Restores(r, g, b, Min(r, b), c, Sixths(r, g, b, c))
  {
    var h := Sixths(r, g, b, c);
    if b < r {
      Negated(r - b, c);
      assert b - r == -(r - b);
      Falling(1, r - b, c, h);
    } else if b - r < c {
      Rising(2, b - r, c, h);
    } else {
      Peak(2, b - r, c, h);
    }
  }

  lemma BlueRestores(r: real, g: real, b: real, c: real)
    requires r < b && g < b && c == b - Min(r, g)
    ensures Restores(r, g, b, Min(r, g), c, Sixths(r, g, b, c))
  {
    var h := Sixths(r, g, b, c);
    if r < g {
      Negated(g - r, c);
      assert r - g == -(g - r);
      Falling(3, g - r, c, h);
    } else {
      Rising(4, r - g, c, h);
    }
  }

  /** The hue of a colour that is not grey tells the order and the proportions of its channels. */
  lemma HueRestores(k: Rgba, c: real)
    requires c == Most(k) - Least(k) > 0.0
    ensures Restores(k.r, k.g, k.b, Least(k), c, Sixths(k.r, k.g, k.b, c))
  {
    if k.r >= k.g && k.r >= k.b {
      RedRestores(k.r, k.g, k.b, c);
    } else if k.g >= k.b {
      GreenRestores(k.r, k.g, k.b, c);
    } else {
      BlueRestores(k.r, k.g, k.b, c);
    }
  }

  lemma UnitQuotient(a: real, c: real, q: real)
    requires c > 0.0 && 0.0 <= a <= c && q == a / c
    ensures Unit(q) && c * q == a
  {
    QuotientIs(a, c, q);
  }

  lemma SaturationFills(hi: real, lo: real, l: real, s: real)
    requires Unit(lo) && lo <= hi <= 1.0 && l == 0.5 * (hi + lo)
    requires (hi != 0.0 && lo != 1.0 ==> Room(l) != 0.0) && s == Saturation(hi, lo, l)
    ensures Unit(s) && Chroma(l, s) == hi - lo
  {
    if hi != 0.0 && lo != 1.0 {
      assert Room(l) > 0.0 && hi - lo <= Room(l);
      UnitQuotient(hi - lo, Room(l), s);
    }
  }

  /** The saturation times its room is the chroma. */
  lemma ChromaKept(k: Rgba, hsl: Hsla)
    requires UnitRgb(k) && hsl == RgbToHsl(k)
    ensures Unit(hsl.s) && Unit(hsl.l) && Chroma(hsl.l, hsl.s) == Most(k) - Least(k)
  {
    SaturationFills(Most(k), Least(k), hsl.l, hsl.s);
  }

  lemma GreyPrimaries(sector: int, x: real)
    requires x == 0.0
    ensures Primaries(sector, 0.0, x) == (0.0, 0.0, 0.0)
  {
  }

  lemma Recombined(k: Rgba, h: real, c: real, l: real)
    requires c == Most(k) - Least(k) && l == Lightness(k)
    requires ChannelsAre(k, h, c)
    ensures Compose(h, c, l, k.a) == k
  {
    assert l - c / 2.0 == Least(k);
  }

  predicate ChannelsAre(k: Rgba, h: real, c: real) {
    Primaries(Truncate(h), c, Second(c, h)) == (k.r - Least(k), k.g - Least(k), k.b - Least(k))
  }

  lemma HueInUnit(k: Rgba, h: real, c: real)
    requires h == RgbToHue(k) * 6.0 && c == Most(k) - Least(k)
    ensures 0.0 <= h < 6.0 && ChannelsAre(k, h, c)
  {
    if c == 0.0 {
      GreyPrimaries(Truncate(h), Second(c, h));
    } else {
      HueRestores(k, c);
      assert h == Sixths(k.r, k.g, k.b, c);
    }
  }

  /** On the whole unit cube, through all sectors of the hue, the greys, black and white: RGB to HSL and back
      changes nothing. */
  lemma RgbHslRgb(k: Rgba)
    requires UnitRgb(k)
    ensures HslToRgb(RgbToHsl(k)) == k
    ensures var hsl := RgbToHsl(k); 0.0 <= hsl.h < 1.0 && Unit(hsl.s) && Unit(hsl.l)
  {
    var hsl := RgbToHsl(k);
    ChromaKept(k, hsl);
    HueInUnit(k, HueSixths(hsl), Chroma(hsl.l, hsl.s));
    Recombined(k, HueSixths(hsl), Chroma(hsl.l, hsl.s), hsl.l);
  }

  // ----- HSL to HSV and back -----

  lemma Part(s: real, room: real)
    requires Unit(s) && 0.0 <= room
    ensures 0.0 <= s * room <= room
  {
    var rest := 1.0 - s;
    assert rest * room >= 0.0;
    assert rest * room == room - s * room;
  }

  lemma ValueOfHsl(l: real, s: real, room: real, v: real)
    requires Unit(s) && Unit(l) && room == Headroom(l) && v == l + s * room
    ensures l <= v <= 1.0 && v - l <= l
  {
    var part := s * room;
    Part(s, room);
    assert part <= room <= l && room <= 1.0 - l;
  }

  lemma DoubleQuotient(a: real, c: real)
    requires c > 0.0
    ensures 2.0 * a / c == 2.0 * (a / c)
  {
  }

  lemma HalfQuotient(a: real, c: real, q: real)
    requires c > 0.0 && c <= 2.0 * a && a <= c && q == a / c
    ensures 0.5 <= q <= 1.0 && c * q == a
  {
    QuotientIs(a, c, q);
  }

  /** The saturation of HSV tells the lightness from the value. */
  lemma LightnessFromValue(l: real, v: real, s: real)
    requires 0.0 <= l <= v && v - l <= l && s == HsvSaturation(l, v)
    ensures v * (1.0 - s * 0.5) == l && Unit(s)
  {
    if v != 0.0 {
      var q := l / v;
      assert v <= 2.0 * l;
      HalfQuotient(l, v, q);
      DoubleQuotient(l, v);
      assert 1.0 - s * 0.5 == q;
    }
  }

  lemma Cancel(a: real, c: real, d: real)
    requires c > 0.0 && d == a * c
    ensures d / c == a
  {
  }

  lemma SaturationBack(l: real, s: real, room: real, v: real)
    requires Unit(l) && room == Headroom(l) && v == l + s * room && l != 0.0 && l != 1.0
    ensures HslSaturation(v, l) == s
  {
    Cancel(s, room, v - l);
  }

  /** What is left of the saturation of an HSL triple on this way, and of that of an HSV triple. */
  function KeptByHsv(l: real, s: real): real {
    if l == 0.0 || l == 1.0 then 0.0 else s
  }

  function KeptByHsl(v: real, s: real): real {
    if v == 0.0 then 0.0 else s
  }

  lemma LightnessKept(l: real, s: real, v: real, t: real)
    requires Unit(l) && Unit(s) && v == Value(l, s) && t == HsvSaturation(l, v)
    ensures Unit(t) && Unit(v) && v * (1.0 - t * 0.5) == l && HslSaturation(v, l) == KeptByHsv(l, s)
  {
    ValueOfHsl(l, s, Headroom(l), v);
    LightnessFromValue(l, v, t);
    if l != 0.0 && l != 1.0 {
      SaturationBack(l, s, Headroom(l), v);
    }
  }

  lemma HslHsvHslIs(k: Hsla, v: real, t: real)
    requires Unit(k.s) && Unit(k.l) && v == Value(k.l, k.s) && t == HsvSaturation(k.l, v)
    ensures HslToHsv(k) == Hsva(k.h, t, v, k.a) && Unit(t) && Unit(v)
    ensures HsvToHsl(Hsva(k.h, t, v, k.a)) == Hsla(k.h, KeptByHsv(k.l, k.s), k.l, k.a)
  {
    LightnessKept(k.l, k.s, v, t);
  }

  /** HSL to HSV and back changes nothing, unless a black or a white claims to be saturated. */
  lemma HslHsvHsl(k: Hsla)
    requires Unit(k.s) && Unit(k.l)
    ensures HsvToHsl(HslToHsv(k)) == k <==> (k.l == 0.0 || k.l == 1.0 ==> k.s == 0.0)
    ensures Unit(HslToHsv(k).s) && Unit(HslToHsv(k).v)
  {
    var v := Value(k.l, k.s);
    HslHsvHslIs(k, v, HsvSaturation(k.l, v));
  }

  /** A saturated black and a saturated white, which lose their saturation. */
  lemma SaturatedEndsFade(a: real)
    ensures HsvToHsl(HslToHsv(Hsla(0.5, 1.0, 0.0, a))) == Hsla(0.5, 0.0, 0.0, a)
    ensures HsvToHsl(HslToHsv(Hsla(0.5, 1.0, 1.0, a))) == Hsla(0.5, 0.0, 1.0, a)
  {
  }

  /** `s` is the share that a chroma has of the room that the lightness leaves. */
  predicate FillsRoom(l: real, s: real, chroma: real) {
    (1.0 - Abs(2.0 * l - 1.0)) * s == chroma
  }

  lemma ChromaFills(l: real, s: real)
    ensures FillsRoom(l, s, Chroma(l, s))
  {
  }

  lemma LightnessIs(k: Rgba, hsl: Hsla)
    requires UnitRgb(k) && hsl == RgbToHsl(k)
    ensures hsl.l + hsl.l == Most(k) + Least(k)
  {
  }

  /** The lightness is half way between the least and the greatest channel, and the saturation is the chroma's share of
      the room that the lightness leaves. */
  lemma HslOfRgb(k: Rgba, hsl: Hsla, hi: real, lo: real)
    requires UnitRgb(k) && hsl == RgbToHsl(k) && hi == Most(k) && lo == Least(k)
    ensures hsl.l + hsl.l == hi + lo && FillsRoom(hsl.l, hsl.s, hi - lo)
  {
    LightnessIs(k, hsl);
    ChromaKept(k, hsl);
    ChromaFills(hsl.l, hsl.s);
  }

  /** Red, yellow, green, cyan, blue and magenta stand in this order, a sixth of the circle apart. */
  function PureHue(k: int, a: real): Rgba {
    match k
    case 0 => Rgba(1.0, 0.0, 0.0, a)
    case 1 => Rgba(1.0, 1.0, 0.0, a)
    case 2 => Rgba(0.0, 1.0, 0.0, a)
    case 3 => Rgba(0.0, 1.0, 1.0, a)
    case 4 => Rgba(0.0, 0.0, 1.0, a)
    case _ => Rgba(1.0, 0.0, 1.0, a)
  }

  lemma ComposePure(k: nat, h: real, x: real, a: real)
    requires k < 6 && Truncate(h) == k && x == Second(1.0, h) && x == if k % 2 == 0 then 0.0 else 1.0
    ensures Compose(h, 1.0, 0.5, a) == PureHue(k, a)
  {
  }

  lemma Saturated(h: real, sixths: real, a: real)
    requires sixths == h * 6.0
    ensures HslToRgb(Hsla(h, 1.0, 0.5, a)) == Compose(sixths, 1.0, 0.5, a)
  {
    assert Chroma(0.5, 1.0) == 1.0;
  }

  lemma PureSecond(h: real, k: nat, x: real)
    requires k < 6 && h == k as real && x == Second(1.0, h)
    ensures Truncate(h) == k && x == if k % 2 == 0 then 0.0 else 1.0
  {
    SectorIs(h, k);
  }

  lemma PureHues(k: nat, h: real, sixths: real, a: real)
    requires k < 6 && sixths == h * 6.0 && sixths == k as real
    ensures HslToRgb(Hsla(h, 1.0, 0.5, a)) == PureHue(k, a)
  {
    PureSecond(sixths, k, Second(1.0, sixths));
    ComposePure(k, sixths, Second(1.0, sixths), a);
    Saturated(h, sixths, a);
  }

  /** RGB to HSL to HSV, and all the way back, changes nothing either. */
  lemma RgbHsvRgb(k: Rgba)
    requires UnitRgb(k)
    ensures HsvToRgb(RgbToHsv(k)) == k
    ensures var hsv := RgbToHsv(k); 0.0 <= hsv.h < 1.0 && Unit(hsv.s) && Unit(hsv.v)
  {
    RgbHslRgb(k);
    HslHsvHsl(RgbToHsl(k));
    assert Most(k) == 0.0 || Least(k) == 1.0 ==> RgbToHsl(k).s == 0.0;
  }

  lemma ValueIsMost(hi: real, lo: real, l: real, s: real)
    requires Unit(l) && l == 0.5 * (hi + lo) && Chroma(l, s) == hi - lo
    ensures Value(l, s) == hi
  {
    var room := Headroom(l);
    assert Room(l) == 2.0 * room;
    assert Room(l) * s == 2.0 * (s * room);
  }

  lemma SumOfQuotients(a: real, b: real, c: real)
    requires c > 0.0
    ensures (a + b) / c == a / c + b / c
  {
    var x, y := a / c, b / c;
    QuotientIs(a, c, x);
    QuotientIs(b, c, y);
    Cancel(x + y, c, a + b);
  }

  /** The chroma's share of the greatest channel. */
  function Share(hi: real, lo: real): real {
    if hi == 0.0 then 0.0 else (hi - lo) / hi
  }

  lemma ShareOfValue(hi: real, lo: real, l: real)
    requires hi >= 0.0 && l == 0.5 * (hi + lo)
    ensures HsvSaturation(l, hi) == Share(hi, lo)
  {
    if hi > 0.0 {
      assert 2.0 * l == hi + lo;
      Cancel(1.0, hi, hi);
      SumOfQuotients(hi, lo, hi);
      SumOfQuotients(hi, -lo, hi);
      Negated(lo, hi);
    }
  }

  /** The detour through HSL gives what HSV is meant to be: the value is the greatest channel, the saturation the
      chroma's share of it. */
  lemma HsvOfRgb(k: Rgba)
    requires UnitRgb(k)
    ensures var hsv := RgbToHsv(k); hsv.v == Most(k) && hsv.s == Share(Most(k), Least(k))
  {
    var hsl := RgbToHsl(k);
    ChromaKept(k, hsl);
    ValueIsMost(Most(k), Least(k), hsl.l, hsl.s);
    ShareOfValue(Most(k), Least(k), hsl.l);
  }

  // ----- HSV to HSL and back -----

  lemma ValueFromSaturation(l: real, v: real)
    requires Unit(l) && l <= v && (l == 0.0 || l == 1.0 ==> v == l)
    ensures Value(l, HslSaturation(v, l)) == v
  {
    if l != 0.0 && l != 1.0 {
      var room := Headroom(l);
      QuotientIs(v - l, room, (v - l) / room);
    }
  }

  lemma SaturationFromLightness(v: real, s: real, l: real)
    requires 0.0 < v && Unit(s) && l == v * (1.0 - s * 0.5)
    ensures HsvSaturation(l, v) == s
  {
    Cancel(1.0 - s * 0.5, v, l);
    DoubleQuotient(l, v);
  }

  lemma LightnessInUnit(v: real, s: real, l: real)
    requires Unit(v) && Unit(s) && l == v * (1.0 - s * 0.5)
    ensures 0.0 <= l <= v && (l == 0.0 <==> v == 0.0)
  {
    var rest := 1.0 - s * 0.5;
    Part(rest, v);
    if v > 0.0 {
      assert v * rest > 0.0;
    }
  }

  lemma ValueKept(v: real, s: real, l: real, t: real)
    requires Unit(v) && Unit(s) && l == v * (1.0 - s * 0.5) && t == HslSaturation(v, l)
    ensures Value(l, t) == v && HsvSaturation(l, v) == KeptByHsl(v, s)
  {
    LightnessInUnit(v, s, l);
    ValueFromSaturation(l, v);
    if v != 0.0 {
      SaturationFromLightness(v, s, l);
    }
  }

  lemma HsvHslHsvIs(k: Hsva, l: real, t: real)
    requires Unit(k.s) && Unit(k.v) && l == k.v * (1.0 - k.s * 0.5) && t == HslSaturation(k.v, l)
    ensures HsvToHsl(k) == Hsla(k.h, t, l, k.a)
    ensures HslToHsv(Hsla(k.h, t, l, k.a)) == Hsva(k.h, KeptByHsl(k.v, k.s), k.v, k.a)
  {
    ValueKept(k.v, k.s, l, t);
  }

  /** HSV to HSL and back changes nothing, unless a black claims to be saturated. */
  lemma HsvHslHsv(k: Hsva)
    requires Unit(k.s) && Unit(k.v)
    ensures HslToHsv(HsvToHsl(k)) == k <==> (k.v == 0.0 ==> k.s == 0.0)
  {
    var l := k.v * (1.0 - k.s * 0.5);
    HsvHslHsvIs(k, l, HslSaturation(k.v, l));
  }

  /** A saturated black loses its saturation on this way, too. */
  lemma SaturatedBlackFades(h: real, a: real)
    ensures HslToHsv(HsvToHsl(Hsva(h, 1.0, 0.0, a))) == Hsva(h, 0.0, 0.0, a)
  {
  }

  // ----- HSL to RGB and back -----

  /** The hue that a second primary `x` on a side of the triangle stands for. */
  predicate OnSide(k: int, x: real, c: real, h: real) {
    && 0 <= k < 6
    && (if k % 2 == 0 then 0.0 <= x < c && x / c == h - k as real else 0.0 < x <= c && x / c == k as real + 1.0 - h)
  }

  lemma SideOfHue(h: real, c: real, x: real)
    requires 0.0 <= h < 6.0 && c > 0.0 && x == Second(c, h)
    ensures OnSide(Truncate(h), x, c, h)
  {
    var k := h.Floor;
    SectorIs(h, k);
    var t := Triangle(h);
    Cancel(t, c, x);
    if k % 2 == 0 {
      var rest := 1.0 - t;
      assert c * t >= 0.0 && c * rest > 0.0;
      assert c * rest == c - x;
    } else {
      var rest := 1.0 - t;
      assert c * t > 0.0 && c * rest >= 0.0;
      assert c * rest == c - x;
    }
  }

  /** What the hue sector, the chroma and the least channel make has that chroma, that least channel and that hue. */
  lemma HueOfSide(k: int, x: real, c: real, h: real, m: real, col: Rgba)
    requires c > 0.0 && OnSide(k, x, c, h)
    requires var p := Primaries(k, c, x); col.r == p.0 + m && col.g == p.1 + m && col.b == p.2 + m
    ensures Most(col) == m + c && Least(col) == m
    ensures Sixths(col.r, col.g, col.b, c) == h
  {
    Negated(x, c);
    Cancel(1.0, c, c);
  }

  lemma GreyIsGrey(h: real, l: real, a: real)
    ensures Compose(h, 0.0, l, a) == Rgba(l, l, l, a)
  {
    GreyPrimaries(Truncate(h), Second(0.0, h));
  }

  lemma ZeroFactor(a: real, b: real, c: real)
    requires c == a * b
    ensures c == 0.0 <==> a == 0.0 || b == 0.0
  {
    if a != 0.0 && b != 0.0 && a * b == 0.0 {
      ZeroProduct(a, b);
    }
  }

  lemma NoRoom(l: real)
    requires Unit(l)
    ensures Room(l) >= 0.0 && (Room(l) == 0.0 <==> l == 0.0 || l == 1.0)
  {
  }

  lemma ShareFits(room: real, s: real, c: real)
    requires room >= 0.0 && Unit(s) && c == room * s
    ensures 0.0 <= c <= room && (c == 0.0 <==> s == 0.0 || room == 0.0)
  {
    Part(s, room);
    ZeroFactor(room, s, c);
  }

  lemma ChromaFits(l: real, s: real, c: real)
    requires Unit(l) && Unit(s) && c == Chroma(l, s)
    ensures 0.0 <= c <= Room(l) && (c == 0.0 <==> s == 0.0 || l == 0.0 || l == 1.0)
  {
    NoRoom(l);
    ShareFits(Room(l), s, c);
  }

  lemma SaturationOfChroma(l: real, s: real, c: real, hi: real, lo: real)
    requires Unit(l) && Unit(s) && c == Chroma(l, s) && c > 0.0 && hi - lo == c && l == 0.5 * (hi + lo)
    ensures (hi != 0.0 && lo != 1.0 ==> Room(l) != 0.0) && Saturation(hi, lo, l) == s
  {
    ChromaFits(l, s, c);
    Cancel(s, Room(l), c);
  }

  lemma ColourfulBack(k: Hsla, col: Rgba, c: real, h: real)
    requires Unit(k.l) && Unit(k.s) && 0.0 <= h < 6.0 && h == HueSixths(k)
    requires c == Chroma(k.l, k.s) && c > 0.0 && col == Compose(h, c, k.l, k.a)
    ensures UnitRgb(col) && RgbToHsl(col) == k
  {
    var m := k.l - c / 2.0;
    ChromaFits(k.l, k.s, c);
    SideOfHue(h, c, Second(c, h));
    HueOfSide(Truncate(h), Second(c, h), c, h, m, col);
    SaturationOfChroma(k.l, k.s, c, m + c, m);
  }

  lemma GreyBack(col: Rgba, l: real)
    requires Unit(l) && col.r == l && col.g == l && col.b == l
    ensures UnitRgb(col) && RgbToHsl(col) == Hsla(0.0, 0.0, l, col.a)
  {
  }

  /** A colour without chroma has no hue and no saturation of its own, and the circle is not closed. */
  predicate Canonical(k: Hsla) {
    k.h < 1.0 && (k.s == 0.0 || k.l == 0.0 || k.l == 1.0 ==> k.h == 0.0 && k.s == 0.0)
  }

  /** The end of the circle is its beginning. */
  lemma CircleCloses(c: real, l: real, a: real)
    ensures Compose(6.0, c, l, a) == Compose(0.0, c, l, a)
  {
    SectorIs(0.0, 0);
    FloorIs(6.0, 6);
    FloorIs(3.0, 3);
    assert 6.0 / 2.0 == 3.0;
    assert Triangle(6.0) == 0.0;
  }

  /** What comes back from RGB: without chroma no hue and no saturation, and the end of the circle as its beginning. */
  function CanonicalOf(k: Hsla): Hsla {
    if k.s == 0.0 || k.l == 0.0 || k.l == 1.0 then Hsla(0.0, 0.0, k.l, k.a)
    else if k.h == 1.0 then k.(h := 0.0)
    else k
  }

  lemma HslRgbHslIs(k: Hsla)
    requires Unit(k.h) && Unit(k.s) && Unit(k.l)
    ensures UnitRgb(HslToRgb(k)) && RgbToHsl(HslToRgb(k)) == CanonicalOf(k)
  {
    var col, c, h := HslToRgb(k), Chroma(k.l, k.s), HueSixths(k);
    ChromaFits(k.l, k.s, c);
    if c == 0.0 {
      GreyIsGrey(h, k.l, k.a);
      GreyBack(col, k.l);
    } else if k.h < 1.0 {
      ColourfulBack(k, col, c, h);
    } else {
      CircleCloses(c, k.l, k.a);
      ColourfulBack(k.(h := 0.0), col, c, 0.0);
    }
  }

  /** HSL to RGB and back: always a colour in the unit cube, and the same HSL exactly if it was canonical. */
  lemma HslRgbHsl(k: Hsla)
    requires Unit(k.h) && Unit(k.s) && Unit(k.l)
    ensures UnitRgb(HslToRgb(k))
    ensures RgbToHsl(HslToRgb(k)) == k <==> Canonical(k)
  {
    HslRgbHslIs(k);
  }

  /** A triple that does not come back: a grey with a hue. */
  lemma HueOfGreyLost(k: Hsla)
    requires k == Hsla(0.5, 0.0, 0.5, 1.0)
    ensures UnitRgb(HslToRgb(k)) && RgbToHsl(HslToRgb(k)) == Hsla(0.0, 0.0, 0.5, 1.0)
  {
    HslRgbHslIs(k);
  }
}

/** Colours that stay readable: contrast, the search for a lightness that reaches it, and the text colour on a
    fill. Numbers are exact; `pow` stands for raising to the power 2.4. */
module BrandColor {

  import opened HexColors
  import opened Options

  // ---- From hue, saturation and lightness to channels ----

  function ClampReal(n: real, low: real, high: real): real {
    var raised := if n < low then low else n;
    if raised > high then high else raised
  }

  function Abs(x: real): real {
    if x < 0.0 then -x else x
  }

  function Round(x: real): int {
    (x + 0.5).Floor
  }

  /** The remainder of JavaScript: it has the sign of the dividend. */
  function Rem(x: real, m: real): real
    requires m > 0.0
  {
    if x < 0.0 then -(-x - m * (-x / m).Floor as real) else x - m * (x / m).Floor as real
  }

  /** Which sixth of the colour wheel the hue lies in. */
  function Sector(h: real): real {
    Rem(Rem(h, 360.0) + 360.0, 360.0) / 60.0
  }

  function Base(sector: real, chroma: real, second: real): (real, real, real) {
    if sector < 1.0 then (chroma, second, 0.0)
    else if sector < 2.0 then (second, chroma, 0.0)
    else if sector < 3.0 then (0.0, chroma, second)
    else if sector < 4.0 then (0.0, second, chroma)
    else if sector < 5.0 then (second, 0.0, chroma)
    else (chroma, 0.0, second)
  }

  function Chroma(light: real, sat: real): real {
    (1.0 - Abs(2.0 * light - 1.0)) * sat
  }

  /** How close a sector is to the middle of its pair: the share of the chroma the second channel gets. */
  function Phase(sector: real): real {
    1.0 - Abs(Rem(sector, 2.0) - 1.0)
  }

  function Second(chroma: real, sector: real): real {
    Share(chroma, Phase(sector))
  }

  function Share(chroma: real, part: real): real {
    chroma * part
  }

  function Shifted(base: (real, real, real), offset: real): Rgb {
    Rgb(Round((base.0 + offset) * 255.0), Round((base.1 + offset) * 255.0), Round((base.2 + offset) * 255.0))
  }

  function HslToRgb(h: real, s: real, l: real): Rgb {
    var sat, light := ClampReal(s, 0.0, 100.0) / 100.0, ClampReal(l, 0.0, 100.0) / 100.0;
    FromSector(Sector(h), Chroma(light, sat), light)
  }

  function FromSector(sector: real, chroma: real, light: real): Rgb {
    Shifted(Base(sector, chroma, Second(chroma, sector)), light - chroma / 2.0)
  }

  lemma Shrinks(a: real, part: real)
    requires 0.0 <= a && 0.0 <= part <= 1.0
    ensures 0.0 <= a * part <= a
  {
  }

  lemma RemRange(x: real)
    requires x >= 0.0
    ensures 0.0 <= Rem(x, 360.0) < 360.0 && 0.0 <= Rem(x, 2.0) < 2.0
  {
  }

  lemma Below(a: real, b: real, m: real)
    requires a <= b && m > 0.0
    ensures a * m <= b * m
  {
  }

  lemma BelowStrictly(a: real, b: real, m: real)
    requires a < b && m > 0.0
    ensures a * m < b * m
  {
  }

  /** A channel built from at most the chroma and the offset is one of the 256 levels. */
  lemma ChannelInRange(part: real, chroma: real, light: real)
    requires 0.0 <= part <= chroma && 0.0 <= light <= 1.0 && chroma <= 1.0 - Abs(2.0 * light - 1.0)
    ensures IsChannel(Round((part + (light - chroma / 2.0)) * 255.0))
  {
  }

  lemma ShiftedIsColor(sector: real, chroma: real, second: real, light: real)
    requires 0.0 <= second <= chroma && 0.0 <= light <= 1.0 && chroma <= 1.0 - Abs(2.0 * light - 1.0)
    ensures IsColor(Shifted(Base(sector, chroma, second), light - chroma / 2.0))
  {
    ChannelInRange(0.0, chroma, light);
    ChannelInRange(second, chroma, light);
    ChannelInRange(chroma, chroma, light);
  }

  lemma ChromaInRange(light: real, sat: real)
    requires 0.0 <= light <= 1.0 && 0.0 <= sat <= 1.0
    ensures 0.0 <= Chroma(light, sat) <= 1.0 - Abs(2.0 * light - 1.0)
  {
    Shrinks(1.0 - Abs(2.0 * light - 1.0), sat);
  }

  lemma PhaseInRange(sector: real)
    requires sector >= 0.0
    ensures 0.0 <= Phase(sector) <= 1.0
  {
    RemRange(sector);
  }

  lemma ShareInRange(chroma: real, part: real)
    requires chroma >= 0.0 && 0.0 <= part <= 1.0
    ensures 0.0 <= Share(chroma, part) <= chroma
  {
    Shrinks(chroma, part);
  }

  lemma SecondInRange(chroma: real, sector: real)
    requires chroma >= 0.0 && sector >= 0.0
    ensures 0.0 <= Second(chroma, sector) <= chroma
  {
    PhaseInRange(sector);
    ShareInRange(chroma, Phase(sector));
  }

  /** Whatever hue, saturation and lightness are asked for, the result is a colour. */
  lemma HslIsColor(h: real, s: real, l: real)
    ensures IsColor(HslToRgb(h, s, l))
  {
    var sat, light := ClampReal(s, 0.0, 100.0) / 100.0, ClampReal(l, 0.0, 100.0) / 100.0;
    var chroma, sector := Chroma(light, sat), Sector(h);
    ChromaInRange(light, sat);
    SectorRange(h);
    SecondInRange(chroma, sector);
    ShiftedIsColor(sector, chroma, Second(chroma, sector), light);
  }

  lemma SectorRange(h: real)
    ensures 0.0 <= Sector(h) < 6.0
  {
    var x := Rem(h, 360.0);
    if h < 0.0 {
      RemRange(-h);
    } else {
      RemRange(h);
    }
    RemRange(x + 360.0);
  }

  lemma Grey(h: real, sat: real, light: real)
    requires light == 0.0 || light == 1.0
    ensures Chroma(light, sat) == 0.0 && Second(0.0, Sector(h)) == 0.0
  {
    ZeroTimes(sat);
    ZeroTimes(Phase(Sector(h)));
  }

  lemma ZeroTimes(x: real)
    ensures 0.0 * x == 0.0
  {
  }

  /** Lightness 0 is black and lightness 100 is white, whatever the hue and saturation. */
  lemma Ends(h: real, s: real)
    ensures HslToRgb(h, s, 0.0) == Rgb(0, 0, 0) && HslToRgb(h, s, 100.0) == Rgb(255, 255, 255)
  {
    var sat := ClampReal(s, 0.0, 100.0) / 100.0;
    Grey(h, sat, 0.0);
    Grey(h, sat, 1.0);
  }

  // ---- What the hue means ----

  lemma TurnOf(h: real) returns (turn: int)
    ensures 0.0 <= h - 360.0 * turn as real < 360.0
  {
    turn := (h / 360.0).Floor;
  }

  lemma RemTurns(x: real, turn: int)
    requires x >= 0.0 && 0.0 <= x - 360.0 * turn as real < 360.0
    ensures Rem(x, 360.0) == x - 360.0 * turn as real
  {
    assert (x / 360.0).Floor == turn;
  }

  /** Going back below zero, whole turns are made up for. */
  lemma NegativeTurns(h: real, back: int, turn: int)
    requires h < 0.0 && 0.0 <= -h - 360.0 * back as real < 360.0 && 0.0 <= h - 360.0 * turn as real < 360.0
    ensures turn == if h + 360.0 * back as real == 0.0 then -back else -back - 1
  {
  }

  lemma NegativeSector(h: real, back: int)
    requires h < 0.0 && 0.0 <= -h - 360.0 * back as real < 360.0
    ensures var x := h + 360.0 * back as real; Sector(h) == (if x == 0.0 then 0.0 else x + 360.0) / 60.0
  {
    var x := h + 360.0 * back as real;
    RemTurns(-h, back);
    assert Rem(h, 360.0) == x;
    RemTurns(x + 360.0, if x == 0.0 then 1 else 0);
  }

  /** The sector is the place of the hue within its turn of 360 degrees. */
  lemma SectorIs(h: real, turn: int)
    requires 0.0 <= h - 360.0 * turn as real < 360.0
    ensures Sector(h) == (h - 360.0 * turn as real) / 60.0
  {
    if h >= 0.0 {
      RemTurns(h, turn);
      RemTurns(Rem(h, 360.0) + 360.0, 1);
    } else {
      var back := TurnOf(-h);
      NegativeTurns(h, back, turn);
      NegativeSector(h, back);
    }
  }

  lemma SectorRotates(h: real)
    ensures Sector(h + 120.0) == if Sector(h) < 4.0 then Sector(h) + 2.0 else Sector(h) - 4.0
  {
    var turn := TurnOf(h);
    SectorIs(h, turn);
    SectorIs(h + 120.0, if Sector(h) < 4.0 then turn else turn + 1);
  }

  lemma SectorMirrors(h: real)
    ensures Sector(-h) == if Sector(h) == 0.0 then 0.0 else 6.0 - Sector(h)
  {
    var turn := TurnOf(h);
    SectorIs(h, turn);
    SectorIs(-h, if Sector(h) == 0.0 then -turn else -turn - 1);
  }

  /** The phase repeats with every other sector and is the same both ways. */
  lemma SamePhase(sector: real)
    requires 0.0 <= sector < 6.0
    ensures sector < 4.0 ==> Phase(sector + 2.0) == Phase(sector)
    ensures sector >= 4.0 ==> Phase(sector - 4.0) == Phase(sector)
    ensures sector > 0.0 ==> Phase(6.0 - sector) == Phase(sector)
  {
  }

  lemma SameSecond(chroma: real, a: real, b: real)
    requires Phase(a) == Phase(b)
    ensures Second(chroma, a) == Second(chroma, b)
  {
  }

  lemma BaseRotates(sector: real, chroma: real, second: real)
    requires 0.0 <= sector < 6.0
    ensures var b := Base(sector, chroma, second);
      Base(if sector < 4.0 then sector + 2.0 else sector - 4.0, chroma, second) == (b.2, b.0, b.1)
  {
  }

  lemma SecondRotates(chroma: real, sector: real)
    requires 0.0 <= sector < 6.0
    ensures Second(chroma, if sector < 4.0 then sector + 2.0 else sector - 4.0) == Second(chroma, sector)
  {
    SamePhase(sector);
    SameSecond(chroma, if sector < 4.0 then sector + 2.0 else sector - 4.0, sector);
  }

  lemma ColorRotates(sector: real, chroma: real, light: real)
    requires 0.0 <= sector < 6.0
    ensures var c := FromSector(sector, chroma, light);
      FromSector(if sector < 4.0 then sector + 2.0 else sector - 4.0, chroma, light) == Rgb(c.b, c.r, c.g)
  {
    SecondRotates(chroma, sector);
    BaseRotates(sector, chroma, Second(chroma, sector));
  }

  /** Turning the hue by 120 degrees passes every channel on to the next one. */
  lemma HueRotates(h: real, s: real, l: real)
    ensures var c := HslToRgb(h, s, l); HslToRgb(h + 120.0, s, l) == Rgb(c.b, c.r, c.g)
  {
    var sat, light := ClampReal(s, 0.0, 100.0) / 100.0, ClampReal(l, 0.0, 100.0) / 100.0;
    SectorRange(h);
    SectorRotates(h);
    ColorRotates(Sector(h), Chroma(light, sat), light);
  }

  lemma SecondMirrors(chroma: real, sector: real)
    requires 0.0 < sector < 6.0
    ensures Second(chroma, 6.0 - sector) == Second(chroma, sector)
  {
    SamePhase(sector);
    SameSecond(chroma, 6.0 - sector, sector);
  }

  /** Where two sectors meet, the second channel is the chroma or nothing, so both describe the same colour. */
  predicate Meets(sector: real, chroma: real, second: real) {
    && (sector == 1.0 || sector == 3.0 || sector == 5.0 ==> second == chroma)
    && (sector == 0.0 || sector == 2.0 || sector == 4.0 ==> second == 0.0)
  }

  lemma SecondMeets(chroma: real, sector: real)
    ensures Meets(sector, chroma, Second(chroma, sector))
  {
    ZeroTimes(chroma);
  }

  lemma BaseMirrors(sector: real, chroma: real, second: real)
    requires 0.0 < sector < 6.0 && Meets(sector, chroma, second)
    ensures var b := Base(sector, chroma, second); Base(6.0 - sector, chroma, second) == (b.0, b.2, b.1)
  {
  }

  lemma ColorMirrors(sector: real, chroma: real, light: real)
    requires 0.0 < sector < 6.0
    ensures var c := FromSector(sector, chroma, light); FromSector(6.0 - sector, chroma, light) == Rgb(c.r, c.b, c.g)
  {
    SecondMirrors(chroma, sector);
    SecondMeets(chroma, sector);
    BaseMirrors(sector, chroma, Second(chroma, sector));
  }

  lemma ZeroHue(chroma: real, light: real)
    ensures FromSector(0.0, chroma, light).g == FromSector(0.0, chroma, light).b
  {
    SecondMeets(chroma, 0.0);
  }

  /** Hues on either side of red mirror each other: green and blue change places. */
  lemma HueMirrors(h: real, s: real, l: real)
    ensures var c := HslToRgb(h, s, l); HslToRgb(-h, s, l) == Rgb(c.r, c.b, c.g)
  {
    var sat, light := ClampReal(s, 0.0, 100.0) / 100.0, ClampReal(l, 0.0, 100.0) / 100.0;
    SectorRange(h);
    SectorMirrors(h);
    if Sector(h) == 0.0 {
      ZeroHue(Chroma(light, sat), light);
    } else {
      ColorMirrors(Sector(h), Chroma(light, sat), light);
    }
  }

  lemma ShiftedOrder(a: real, b: real, offset: real)
    requires a <= b
    ensures Round((a + offset) * 255.0) <= Round((b + offset) * 255.0)
  {
  }

  /** Which channel is the strongest and which the weakest, by the sixth of the wheel. */
  predicate Ordered(sector: real, c: Rgb) {
    if sector < 1.0 then c.r >= c.g >= c.b
    else if sector < 2.0 then c.g >= c.r >= c.b
    else if sector < 3.0 then c.g >= c.b >= c.r
    else if sector < 4.0 then c.b >= c.g >= c.r
    else if sector < 5.0 then c.b >= c.r >= c.g
    else c.r >= c.b >= c.g
  }

  /** For every hue, the sixth of the wheel it lies in, whole turns aside, orders the channels. */
  lemma SectorOrders(h: real, s: real, l: real) returns (turn: int)
    ensures 0.0 <= h - 360.0 * turn as real < 360.0
    ensures Ordered((h - 360.0 * turn as real) / 60.0, HslToRgb(h, s, l))
  {
    turn := TurnOf(h);
    SectorIs(h, turn);
    var sat, light := ClampReal(s, 0.0, 100.0) / 100.0, ClampReal(l, 0.0, 100.0) / 100.0;
    var chroma := Chroma(light, sat);
    SectorRange(h);
    ChromaInRange(light, sat);
    SecondInRange(chroma, Sector(h));
    ShiftedOrder(Second(chroma, Sector(h)), chroma, light - chroma / 2.0);
    ShiftedOrder(0.0, Second(chroma, Sector(h)), light - chroma / 2.0);
  }

  // ---- Luminance and contrast ----

  /** What is used of raising to the power 2.4: it keeps the unit interval and its ends. */
  ghost predicate IsPower(pow: real -> real) {
    pow(0.0) == 0.0 && pow(1.0) == 1.0 && forall x: real :: 0.0 <= x <= 1.0 ==> 0.0 <= pow(x) <= 1.0
  }

  function Linear(channel: int, pow: real -> real): real {
    var v := channel as real / 255.0;
    if v <= 0.03928 then v / 12.92 else pow((v + 0.055) / 1.055)
  }

  function Luminance(c: Rgb, pow: real -> real): real {
    0.2126 * Linear(c.r, pow) + 0.7152 * Linear(c.g, pow) + 0.0722 * Linear(c.b, pow)
  }

  lemma LinearInRange(channel: int, pow: real -> real)
    requires IsChannel(channel) && IsPower(pow)
    ensures 0.0 <= Linear(channel, pow) <= 1.0
  {
    var v := channel as real / 255.0;
    assert 0.0 <= (v + 0.055) / 1.055 <= 1.0;
  }

  lemma LuminanceInRange(c: Rgb, pow: real -> real)
    requires IsColor(c) && IsPower(pow)
    ensures 0.0 <= Luminance(c, pow) <= 1.0
  {
    LinearInRange(c.r, pow);
    LinearInRange(c.g, pow);
    LinearInRange(c.b, pow);
  }

  lemma BlackAndWhite(pow: real -> real)
    requires IsPower(pow)
    ensures Luminance(Rgb(0, 0, 0), pow) == 0.0 && Luminance(Rgb(255, 255, 255), pow) == 1.0
  {
    assert (255 as real / 255.0 + 0.055) / 1.055 == 1.0;
  }

  /** What more is used where luminances are compared: raising to the power 2.4 keeps the order, and joins the linear
      part of the scale from channel 11 on. */
  ghost predicate Rises(pow: real -> real) {
    && IsPower(pow)
    && (forall x: real, y: real :: 0.0 <= x <= y <= 1.0 ==> pow(x) <= pow(y))
    && pow((11.0 / 255.0 + 0.055) / 1.055) > 0.03928 / 12.92
  }

  lemma DarkOrBright(channel: int)
    requires IsChannel(channel)
    ensures channel as real / 255.0 <= 0.03928 <==> channel <= 10
  {
  }

  lemma BrightLinear(channel: int, pow: real -> real)
    requires 10 < channel <= 255 && Rises(pow)
    ensures Linear(channel, pow) > 0.03928 / 12.92
  {
    DarkOrBright(channel);
    assert 0.0 <= (11.0 / 255.0 + 0.055) / 1.055 <= (channel as real / 255.0 + 0.055) / 1.055 <= 1.0;
  }

  lemma LinearRises(a: int, b: int, pow: real -> real)
    requires IsChannel(a) && IsChannel(b) && a <= b && Rises(pow)
    ensures Linear(a, pow) <= Linear(b, pow)
  {
    DarkOrBright(a);
    DarkOrBright(b);
    if a > 10 {
      assert 0.0 <= (a as real / 255.0 + 0.055) / 1.055 <= (b as real / 255.0 + 0.055) / 1.055 <= 1.0;
    } else if b > 10 {
      BrightLinear(b, pow);
    }
  }

  /** The inverse of the channel curve, for a root that undoes the power. */
  function FromLinear(light: real, root: real -> real): real {
    (if light <= 0.03928 / 12.92 then 12.92 * light else 1.055 * root(light) - 0.055) * 255.0
  }

  /** Every channel is recovered from its linear light. */
  lemma LinearRoundTrip(channel: int, pow: real -> real, root: real -> real)
    requires IsChannel(channel) && Rises(pow) && forall x: real :: 0.0 <= x <= 1.0 ==> root(pow(x)) == x
    ensures FromLinear(Linear(channel, pow), root) == channel as real
  {
    DarkOrBright(channel);
    if channel > 10 {
      BrightLinear(channel, pow);
      assert 0.0 <= (channel as real / 255.0 + 0.055) / 1.055 <= 1.0;
    }
  }

  /** A colour is no darker than one with no brighter channel. */
  lemma LuminanceRises(c: Rgb, d: Rgb, pow: real -> real)
    requires IsColor(c) && IsColor(d) && c.r <= d.r && c.g <= d.g && c.b <= d.b && Rises(pow)
    ensures Luminance(c, pow) <= Luminance(d, pow)
  {
    LinearRises(c.r, d.r, pow);
    LinearRises(c.g, d.g, pow);
    LinearRises(c.b, d.b, pow);
  }

  /** The three pure channels carry their shares of white. */
  lemma PureChannels(pow: real -> real)
    requires IsPower(pow)
    ensures Luminance(Rgb(255, 0, 0), pow) == 0.2126
    ensures Luminance(Rgb(0, 255, 0), pow) == 0.7152
    ensures Luminance(Rgb(0, 0, 255), pow) == 0.0722
  {
    assert (255 as real / 255.0 + 0.055) / 1.055 == 1.0;
  }

  function Max(a: real, b: real): real {
    if a < b then b else a
  }

  function Min(a: real, b: real): real {
    if a < b then a else b
  }

  function ContrastRatio(a: real, b: real): real
    requires a >= 0.0 && b >= 0.0
  {
    (Max(a, b) + 0.05) / (Min(a, b) + 0.05)
  }

  /** A ratio reaches a target when its numerator reaches that many denominators. */
  lemma RatioReaches(x: real, y: real, target: real)
    requires y > 0.0
    ensures x / y >= target <==> x >= target * y
  {
    var q := x / y;
    assert q * y == x;
    if q >= target {
      Below(target, q, y);
    } else {
      BelowStrictly(q, target, y);
    }
  }

  lemma SameFactor(a: real, b: real, m: real)
    requires m > 0.0 && a * m == b * m
    ensures a == b
  {
    if a < b {
      BelowStrictly(a, b, m);
    } else if b < a {
      BelowStrictly(b, a, m);
    }
  }

  lemma RatioIs(x: real, y: real, target: real)
    requires y > 0.0
    ensures x / y == target <==> x == target * y
  {
    assert (x / y) * y == x;
    if x == target * y {
      SameFactor(x / y, target, y);
    }
  }

  /** The scale of contrast: the same in both directions, 1 only between equal luminances and 21 only between black
      and white. */
  lemma ContrastScale(a: real, b: real)
    requires 0.0 <= a <= 1.0 && 0.0 <= b <= 1.0
    ensures var ratio := ContrastRatio(a, b);
      && ratio == ContrastRatio(b, a) && 1.0 <= ratio <= 21.0
      && (ratio == 1.0 <==> a == b) && (ratio == 21.0 <==> (a == 0.0 && b == 1.0) || (a == 1.0 && b == 0.0))
  {
    var x, y := Max(a, b) + 0.05, Min(a, b) + 0.05;
    RatioReaches(x, y, 1.0);
    RatioReaches(x, y, 21.0);
    RatioIs(x, y, 1.0);
    RatioIs(x, y, 21.0);
  }

  function HexLuminance(hex: string, pow: real -> real): real {
    if HexToRgb(hex).Some? then Luminance(HexToRgb(hex).value, pow) else 0.0
  }

  lemma HexLuminanceInRange(hex: string, pow: real -> real)
    requires IsPower(pow)
    ensures 0.0 <= HexLuminance(hex, pow) <= 1.0
  {
    if HexToRgb(hex).Some? {
      TextRoundTrip(hex);
      LuminanceInRange(HexToRgb(hex).value, pow);
    }
  }

  // ---- The search for a lightness ----

  /** The hue and saturation to keep, the surfaces to stay readable on, the contrast to reach, and where to start. */
  datatype Problem = Problem(h: real, sat: real, surfaces: seq<real>, target: real, start: int)

  ghost predicate IsProblem(p: Problem, pow: real -> real) {
    IsPower(pow) && forall i :: 0 <= i < |p.surfaces| ==> 0.0 <= p.surfaces[i] <= 1.0
  }

  function ColorAt(p: Problem, l: int): Rgb {
    HslToRgb(p.h, p.sat, l as real)
  }

  function LuminanceAt(p: Problem, l: int, pow: real -> real): (lum: real)
    requires IsPower(pow)
    ensures 0.0 <= lum <= 1.0
  {
    HslIsColor(p.h, p.sat, l as real);
    LuminanceInRange(ColorAt(p, l), pow);
    Luminance(ColorAt(p, l), pow)
  }

  /** Whether a luminance reaches the target against every surface. */
  predicate Readable(lum: real, p: Problem, pow: real -> real)
    requires IsProblem(p, pow) && lum >= 0.0
  {
    forall i :: 0 <= i < |p.surfaces| ==> ContrastRatio(lum, p.surfaces[i]) >= p.target
  }

  predicate Clears(p: Problem, l: int, pow: real -> real)
    requires IsProblem(p, pow)
  {
    Readable(LuminanceAt(p, l, pow), p, pow)
  }

  /** The test the search applies to a lightness. */
  function Test(p: Problem, pow: real -> real): (clears: int --> bool)
    requires IsProblem(p, pow)
    ensures forall l :: clears.requires(l)
  {
    (l: int) requires IsProblem(p, pow) => Clears(p, l, pow)
  }

  /** The first lightness that clears, walking outward from the start, the darker side first. */
  function Search(clears: int --> bool, start: int, offset: nat): Option<int>
    requires forall l :: clears.requires(l)
    decreases 101 - offset
  {
    if offset > 100 then None
    else if start - offset >= 0 && clears(start - offset) then Some(start - offset)
    else if start + offset <= 100 && clears(start + offset) then Some(start + offset)
    else Search(clears, start, offset + 1)
  }

  function Fallback(p: Problem): int {
    if forall i :: 0 <= i < |p.surfaces| ==> p.surfaces[i] > 0.5 then 0 else 100
  }

  /** The lightness of the colour that is returned. */
  function Solution(p: Problem, found: Option<int>): int {
    if found.Some? then found.value else Fallback(p)
  }

  method WalkOutward(start: int, clears: int --> bool) returns (l: Option<int>)
    requires forall l :: clears.requires(l)
    ensures l == Search(clears, start, 0)
  {
    for offset := 0 to 101
      invariant Search(clears, start, 0) == Search(clears, start, offset)
    {
      var darker := start - offset;
      if darker >= 0 && clears(darker) {
        return Some(darker);
      }
      var lighter := start + offset;
      if lighter <= 100 && clears(lighter) {
        return Some(lighter);
      }
    }
    return None;
  }

  function Distance(a: int, b: int): nat {
    if a < b then b - a else a - b
  }

  /** A lightness on the scale that clears, and none that clears is nearer the start; of two equally near, it is
      the darker. */
  ghost predicate IsNearest(clears: int --> bool, start: int, l: int)
    requires forall m :: clears.requires(m)
  {
    && 0 <= l <= 100 && clears(l)
    && forall m :: 0 <= m <= 100 && clears(m) ==>
         Distance(m, start) > Distance(l, start) || (Distance(m, start) == Distance(l, start) && l <= m)
  }

  ghost predicate NoneNearer(clears: int --> bool, start: int, offset: nat)
    requires forall m :: clears.requires(m)
  {
    forall m :: 0 <= m <= 100 && clears(m) ==> Distance(m, start) >= offset
  }

  lemma {:induction false} SearchFinds(clears: int --> bool, start: int, offset: nat)
    requires forall m :: clears.requires(m)
    requires 0 <= start <= 100 && offset <= 101 && NoneNearer(clears, start, offset)
    ensures var r := Search(clears, start, offset);
      (r.Some? ==> IsNearest(clears, start, r.value)) && (r.None? ==> forall m :: 0 <= m <= 100 ==> !clears(m))
    decreases 101 - offset
  {
    var darker, lighter := start - offset, start + offset;
    if offset <= 100 && !(darker >= 0 && clears(darker)) && !(lighter <= 100 && clears(lighter)) {
      SearchFinds(clears, start, offset + 1);
    }
  }

  /** For a start on the scale, the search finds the nearest lightness that clears whenever any does, and nothing
      exactly when none does. */
  lemma SearchFindsNearest(clears: int --> bool, start: int)
    requires (forall m :: clears.requires(m)) && 0 <= start <= 100
    ensures var r := Search(clears, start, 0);
      && ((exists m :: 0 <= m <= 100 && clears(m)) <==> r.Some?)
      && (forall l :: r == Some(l) <==> IsNearest(clears, start, l))
  {
    SearchFinds(clears, start, 0);
    forall l | IsNearest(clears, start, l) ensures Search(clears, start, 0) == Some(l) {
      var r := Search(clears, start, 0);
      assert r.Some? && Distance(r.value, start) == Distance(l, start);
    }
  }

  /** Whether a colour text reaches the target against every surface. */
  predicate ReadableColor(color: string, p: Problem, pow: real -> real)
    requires IsProblem(p, pow)
  {
    HexLuminanceInRange(color, pow);
    Readable(HexLuminance(color, pow), p, pow)
  }

  /** The colour text carries the luminance that was measured: what clears as a lightness reads as a colour. */
  lemma ColorReadsIff(p: Problem, l: int, pow: real -> real)
    requires IsProblem(p, pow)
    ensures ReadableColor(RgbToHex(ColorAt(p, l)), p, pow) <==> Clears(p, l, pow)
  {
    SameLuminance(ColorAt(p, l), pow) by {
      HslIsColor(p.h, p.sat, l as real);
    }
  }

  lemma SameLuminance(c: Rgb, pow: real -> real)
    requires IsColor(c)
    ensures HexLuminance(RgbToHex(c), pow) == Luminance(c, pow)
  {
    HexRoundTrip(c);
  }

  /** Some whole lightness on the scale clears every surface. */
  ghost predicate CanClear(p: Problem, pow: real -> real)
    requires IsProblem(p, pow)
  {
    exists l :: 0 <= l <= 100 && Clears(p, l, pow)
  }

  /** Searched from a start on the scale, the solution clears exactly when something on the scale does: the fallback
      is on the scale too. */
  lemma SolutionClearsIff(p: Problem, pow: real -> real)
    requires IsProblem(p, pow) && 0 <= p.start <= 100
    ensures Clears(p, Solution(p, Search(Test(p, pow), p.start, 0)), pow) <==> CanClear(p, pow)
  {
    var clears := Test(p, pow);
    assert forall m :: clears(m) <==> Clears(p, m, pow);
    SearchFindsNearest(clears, p.start);
  }

  method SolveLightness(p: Problem, pow: real -> real) returns (color: string)
    requires IsProblem(p, pow)
    ensures color == RgbToHex(ColorAt(p, Solution(p, Search(Test(p, pow), p.start, 0))))
    ensures 0 <= p.start <= 100 ==> (ReadableColor(color, p, pow) <==> CanClear(p, pow))
  {
    var l := WalkOutward(p.start, Test(p, pow));
    color := RgbToHex(ColorAt(p, if l.Some? then l.value else Fallback(p)));
    if 0 <= p.start <= 100 {
      SolutionClearsIff(p, pow);
      ColorReadsIff(p, Solution(p, l), pow);
    }
  }

  // ---- When the fallback cannot be reached ----

  /** A surface too light for white to reach the target on it. */
  predicate TooLight(target: real, lum: real) {
    target * (lum + 0.05) > 1.05
  }

  /** A surface too dark for black to reach the target on it. */
  predicate TooDark(target: real, lum: real) {
    target * 0.05 > lum + 0.05
  }

  lemma WhiteOnSurface(lum: real, target: real)
    requires 0.0 <= lum <= 1.0
    ensures ContrastRatio(1.0, lum) >= target <==> !TooLight(target, lum)
  {
    RatioReaches(1.05, lum + 0.05, target);
  }

  lemma BlackOnSurface(lum: real, target: real)
    requires 0.0 <= lum <= 1.0
    ensures ContrastRatio(0.0, lum) >= target <==> !TooDark(target, lum)
  {
    RatioReaches(lum + 0.05, 0.05, target);
  }

  lemma EndLuminances(p: Problem, pow: real -> real)
    requires IsPower(pow)
    ensures LuminanceAt(p, 100, pow) == 1.0 && LuminanceAt(p, 0, pow) == 0.0
  {
    Ends(p.h, p.sat);
    BlackAndWhite(pow);
  }

  /** Some surface is too light for white, and some too dark for black. */
  predicate Straddles(p: Problem) {
    && (exists i :: 0 <= i < |p.surfaces| && TooLight(p.target, p.surfaces[i]))
    && (exists i :: 0 <= i < |p.surfaces| && TooDark(p.target, p.surfaces[i]))
  }

  /** Unless the surfaces straddle the middle, black or white clears. */
  lemma EndsClear(p: Problem, pow: real -> real)
    requires IsProblem(p, pow) && !Straddles(p)
    ensures Clears(p, 100, pow) || Clears(p, 0, pow)
  {
    EndLuminances(p, pow);
    if forall i :: 0 <= i < |p.surfaces| ==> !TooLight(p.target, p.surfaces[i]) {
      forall i | 0 <= i < |p.surfaces| ensures ContrastRatio(1.0, p.surfaces[i]) >= p.target {
        WhiteOnSurface(p.surfaces[i], p.target);
      }
      assert Readable(1.0, p, pow);
    } else {
      forall i | 0 <= i < |p.surfaces| ensures ContrastRatio(0.0, p.surfaces[i]) >= p.target {
        BlackOnSurface(p.surfaces[i], p.target);
      }
      assert Readable(0.0, p, pow);
    }
  }

  predicate AllDark(surfaces: seq<real>) {
    forall i :: 0 <= i < |surfaces| ==> surfaces[i] <= 0.18
  }

  predicate AllLight(surfaces: seq<real>) {
    forall i :: 0 <= i < |surfaces| ==> surfaces[i] >= 0.18
  }

  lemma DarkTakesWhite(target: real, lum: real)
    requires 0.0 <= target <= 4.5 && lum <= 0.18
    ensures !TooLight(target, lum)
  {
    assert target * lum <= target * 0.18;
  }

  /** For targets up to 4.5, surfaces all on one side of luminance 0.18 do not straddle. */
  lemma OneSidedDoesNotStraddle(p: Problem)
    requires 0.0 <= p.target <= 4.5 && (AllDark(p.surfaces) || AllLight(p.surfaces))
    ensures !Straddles(p)
  {
    forall i | 0 <= i < |p.surfaces| && p.surfaces[i] <= 0.18 ensures !TooLight(p.target, p.surfaces[i]) {
      DarkTakesWhite(p.target, p.surfaces[i]);
    }
  }

  lemma NotBoth(target: real, lum: real)
    requires 0.0 <= target <= 4.58 && TooDark(target, lum)
    ensures !TooLight(target, lum)
  {
    assert target * lum <= target * 0.179;
  }

  /** Nor does a single surface for any target up to 4.58. */
  lemma OneSurfaceDoesNotStraddle(p: Problem)
    requires 0.0 <= p.target <= 4.58 && |p.surfaces| <= 1
    ensures !Straddles(p)
  {
    if |p.surfaces| == 1 && TooDark(p.target, p.surfaces[0]) {
      NotBoth(p.target, p.surfaces[0]);
    }
  }

  /** Unless the surfaces straddle the middle, the search succeeds: the colour returned reaches the target against
      every surface, at the lightness nearest to the start that does. */
  lemma SolvedUnlessStraddled(p: Problem, pow: real -> real)
    requires IsProblem(p, pow) && 0 <= p.start <= 100 && !Straddles(p)
    ensures var found := Search(Test(p, pow), p.start, 0);
      && found.Some? && IsNearest(Test(p, pow), p.start, found.value)
      && ReadableColor(RgbToHex(ColorAt(p, found.value)), p, pow)
  {
    EndsClear(p, pow);
    var test := Test(p, pow);
    assert test(100) || test(0);
    SearchFindsNearest(test, p.start);
    var l := Search(test, p.start, 0).value;
    assert Clears(p, l, pow);
    ColorReadsIff(p, l, pow);
  }

  // ---- The end that is taken when nothing clears ----

  lemma NothingClearsStraddles(p: Problem, pow: real -> real)
    requires IsProblem(p, pow) && !CanClear(p, pow)
    ensures Straddles(p)
  {
    if !Straddles(p) {
      EndsClear(p, pow);
    }
  }

  lemma StraddlingTakesWhite(p: Problem)
    requires Straddles(p) && p.target <= 11.0
    ensures Fallback(p) == 100
  {
    var i :| 0 <= i < |p.surfaces| && TooDark(p.target, p.surfaces[i]);
    assert p.surfaces[i] < 0.5;
  }

  lemma WhiteIs(p: Problem)
    ensures RgbToHex(ColorAt(p, 100)) == "#ffffff"
  {
    Ends(p.h, p.sat);
  }

  /** For targets up to 11 that end is always white. */
  lemma FallbackIsWhite(p: Problem, pow: real -> real)
    requires IsProblem(p, pow) && 0 <= p.start <= 100 && p.target <= 11.0 && !CanClear(p, pow)
    ensures RgbToHex(ColorAt(p, Solution(p, Search(Test(p, pow), p.start, 0)))) == "#ffffff"
  {
    SearchFindsNearest(Test(p, pow), p.start);
    NothingClearsStraddles(p, pow);
    StraddlingTakesWhite(p);
    WhiteIs(p);
  }

  /** The lowest contrast of a colour against the surfaces. */
  ghost predicate IsWorst(worst: real, lum: real, surfaces: seq<real>)
    requires lum >= 0.0 && forall i :: 0 <= i < |surfaces| ==> surfaces[i] >= 0.0
  {
    && (exists i :: 0 <= i < |surfaces| && worst == ContrastRatio(lum, surfaces[i]))
    && (forall i :: 0 <= i < |surfaces| ==> ContrastRatio(lum, surfaces[i]) >= worst)
  }

  /** The darkest and the lightest surface. */
  ghost predicate Extremes(low: real, high: real, surfaces: seq<real>) {
    && low in surfaces && high in surfaces
    && forall i :: 0 <= i < |surfaces| ==> low <= surfaces[i] <= high
  }

  lemma RatioOrder(a: real, b: real, c: real, d: real)
    requires b > 0.0 && d > 0.0
    ensures a / b >= c / d <==> a * d >= c * b
  {
    RatioReaches(a, b, c / d);
    assert (c / d) * d == c;
    var q := c / d;
    assert q * b * d == c * b;
    if a >= q * b {
      Below(q * b, a, d);
    } else {
      BelowStrictly(a, q * b, d);
    }
  }

  lemma WorstWhite(low: real, high: real, surfaces: seq<real>)
    requires Extremes(low, high, surfaces) && forall i :: 0 <= i < |surfaces| ==> 0.0 <= surfaces[i] <= 1.0
    ensures IsWorst(1.05 / (high + 0.05), 1.0, surfaces)
  {
    forall i | 0 <= i < |surfaces| ensures ContrastRatio(1.0, surfaces[i]) >= 1.05 / (high + 0.05) {
      RatioOrder(1.05, surfaces[i] + 0.05, 1.05, high + 0.05);
    }
    var k :| 0 <= k < |surfaces| && surfaces[k] == high;
    assert ContrastRatio(1.0, surfaces[k]) == 1.05 / (high + 0.05);
  }

  lemma WorstBlack(low: real, high: real, surfaces: seq<real>)
    requires Extremes(low, high, surfaces) && forall i :: 0 <= i < |surfaces| ==> 0.0 <= surfaces[i] <= 1.0
    ensures IsWorst((low + 0.05) / 0.05, 0.0, surfaces)
  {
    var k :| 0 <= k < |surfaces| && surfaces[k] == low;
    assert ContrastRatio(0.0, surfaces[k]) == (low + 0.05) / 0.05;
  }

  lemma WhiteOverBlack(low: real, high: real)
    requires 0.0 <= low && 0.0 <= high
    ensures 1.05 / (high + 0.05) >= (low + 0.05) / 0.05 <==> (low + 0.05) * (high + 0.05) <= 0.0525
  {
    RatioOrder(1.05, high + 0.05, low + 0.05, 0.05);
  }

  /** The end taken is meant to be the one furthest from the surfaces. The lowest contrast of white is at least that of
      black exactly while the product of the extreme luminances, each raised by 0.05, is at most 0.0525. */
  lemma FurthestIff(p: Problem, low: real, high: real, pow: real -> real)
    requires IsProblem(p, pow) && Extremes(low, high, p.surfaces)
    ensures var white, black := 1.05 / (high + 0.05), (low + 0.05) / 0.05;
      && IsWorst(white, 1.0, p.surfaces) && IsWorst(black, 0.0, p.surfaces)
      && (white >= black <==> (low + 0.05) * (high + 0.05) <= 0.0525)
  {
    assert low in p.surfaces && high in p.surfaces && 0.0 <= low && 0.0 <= high;
    WorstWhite(low, high, p.surfaces);
    WorstBlack(low, high, p.surfaces);
    WhiteOverBlack(low, high);
  }

  lemma NoneReachesBoth(lum: real)
    requires 0.0 <= lum <= 1.0
    ensures ContrastRatio(lum, 0.1) < 4.5 || ContrastRatio(lum, 0.9) < 4.5
  {
    RatioReaches(Max(lum, 0.1) + 0.05, Min(lum, 0.1) + 0.05, 4.5);
    RatioReaches(Max(lum, 0.9) + 0.05, Min(lum, 0.9) + 0.05, 4.5);
  }

  /** On a surface of luminance 0.1 and one of 0.9 white is taken, though black keeps more contrast. */
  lemma NearerEndTaken(p: Problem, pow: real -> real)
    requires IsPower(pow) && p.surfaces == [0.1, 0.9] && p.target == 4.5 && 0 <= p.start <= 100
    ensures RgbToHex(ColorAt(p, Solution(p, Search(Test(p, pow), p.start, 0)))) == "#ffffff"
    ensures exists white, black :: IsWorst(white, 1.0, p.surfaces) && IsWorst(black, 0.0, p.surfaces) && white < black
  {
    forall l | 0 <= l <= 100 ensures !Clears(p, l, pow) {
      NoneReachesBoth(LuminanceAt(p, l, pow));
      assert p.surfaces[0] == 0.1 && p.surfaces[1] == 0.9;
    }
    FallbackIsWhite(p, pow);
    assert p.surfaces[0] == 0.1 && p.surfaces[1] == 0.9;
    FurthestIff(p, 0.1, 0.9, pow);
  }

  // ---- Text on a fill ----

  const INK := "#152033"
  const PAPER := "#f8fafc"
  const BLACK := "#000000"
  const WHITE := "#ffffff"

  const AA_TEXT := 4.5

  /** The contrast of a colour text on a background. */
  function On(color: string, background: real, pow: real -> real): real
    requires IsPower(pow) && 0.0 <= background <= 1.0
  {
    HexLuminanceInRange(color, pow);
    ContrastRatio(HexLuminance(color, pow), background)
  }

  /** How well each colour text reads on the background. */
  function Score(background: real, pow: real -> real): (score: string --> real)
    requires IsPower(pow) && 0.0 <= background <= 1.0
    ensures forall c :: score.requires(c)
  {
    (c: string) requires IsPower(pow) && 0.0 <= background <= 1.0 => On(c, background, pow)
  }

  /** The candidate with the highest score, the earliest of equals. */
  function Better(candidates: seq<string>, score: string --> real): string
    requires candidates != [] && forall c :: score.requires(c)
  {
    if |candidates| == 1 then candidates[0]
    else
      var winner, last := Better(candidates[..|candidates| - 1], score), candidates[|candidates| - 1];
      if score(last) > score(winner) then last else winner
  }

  function PickOnColor(background: real, pow: real -> real): string
    requires IsPower(pow) && 0.0 <= background <= 1.0
  {
    var score := Score(background, pow);
    var soft := Better([INK, PAPER], score);
    if score(soft) >= AA_TEXT then soft else Better([BLACK, WHITE], score)
  }

  lemma {:induction false} BetterIsBest(candidates: seq<string>, score: string --> real)
    requires candidates != [] && forall c :: score.requires(c)
    ensures var best := Better(candidates, score);
      best in candidates && forall i :: 0 <= i < |candidates| ==> score(best) >= score(candidates[i])
  {
    if |candidates| > 1 {
      var front := candidates[..|candidates| - 1];
      BetterIsBest(front, score);
      assert forall i :: 0 <= i < |front| ==> candidates[i] == front[i];
    }
  }

  /** Of candidates that score alike the earliest wins. */
  lemma {:induction false} BetterIsEarliest(candidates: seq<string>, score: string --> real) returns (k: nat)
    requires candidates != [] && forall c :: score.requires(c)
    ensures k < |candidates| && candidates[k] == Better(candidates, score)
    ensures forall i :: 0 <= i < k ==> score(candidates[i]) < score(candidates[k])
  {
    k := 0;
    if |candidates| > 1 {
      var front := candidates[..|candidates| - 1];
      var before := BetterIsEarliest(front, score);
      BetterIsBest(front, score);
      k := if score(candidates[|front|]) > score(front[before]) then |front| else before;
      assert forall i :: 0 <= i < |front| ==> candidates[i] == front[i];
    }
  }

  lemma PureLuminances(pow: real -> real)
    requires IsPower(pow)
    ensures HexLuminance(BLACK, pow) == 0.0 && HexLuminance(WHITE, pow) == 1.0
  {
    assert RgbToHex(Rgb(0, 0, 0)) == BLACK && RgbToHex(Rgb(255, 255, 255)) == WHITE;
    SameLuminance(Rgb(0, 0, 0), pow);
    SameLuminance(Rgb(255, 255, 255), pow);
    BlackAndWhite(pow);
  }

  /** On any background the better of black and white reaches 4.58. */
  lemma PureReaches(background: real, pow: real -> real)
    requires IsPower(pow) && 0.0 <= background <= 1.0
    ensures var best := Better([BLACK, WHITE], Score(background, pow));
      best in [BLACK, WHITE] && On(best, background, pow) >= 4.58
  {
    var pair := [BLACK, WHITE];
    PureLuminances(pow);
    BetterIsBest(pair, Score(background, pow));
    BlackOnSurface(background, 4.58);
    WhiteOnSurface(background, 4.58);
    assert pair[0] == BLACK && pair[1] == WHITE;
  }

  /** The text colour picked for a fill always reaches 4.5, the contrast minimum of success criterion 1.4.3 of
      WCAG 2.1: black or white steps in exactly where neither soft tone does. */
  lemma PickedTextIsReadable(background: real, pow: real -> real)
    requires IsPower(pow) && 0.0 <= background <= 1.0
    ensures var picked := PickOnColor(background, pow);
      && On(picked, background, pow) >= AA_TEXT
      && (picked in {INK, PAPER} <==> On(INK, background, pow) >= AA_TEXT || On(PAPER, background, pow) >= AA_TEXT)
  {
    var soft := [INK, PAPER];
    BetterIsBest(soft, Score(background, pow));
    assert soft[0] == INK && soft[1] == PAPER;
    PureReaches(background, pow);
  }
}

// Frame numbers, SMPTE-style time codes and seeking, over exact reals.
module VideoFrame {
  import opened Wrappers
  import opened Decimal

  type Rate = r: real | r > 0.0 witness 24.0

  /** What the player stores: any rate it is given, except 0. */
  type StoredRate = r: real | r != 0.0 witness 24.0

  /** Rounds half up. */
  function Round(x: real): int {
    (x + 0.5).Floor
  }

  function Whole(x: real): nat
    requires x >= 0.0
  {
    x.Floor
  }

  /** The remainder of a division of numbers that are not negative. */
  function Remainder(x: real, fps: Rate): real {
    x - (x / fps).Floor as real * fps
  }

  /** The full seconds before a frame. */
  function FullSeconds(frame: nat, fps: Rate): nat {
    RemainderInRange(frame, fps);
    Whole(frame as real / fps)
  }

  lemma SecondsAndRest(frame: nat, fps: Rate)
    ensures frame as real == FullSeconds(frame, fps) as real * fps + Remainder(frame as real, fps)
  {
  }

  // ---------------------------------------------------------------- time codes

  /** Frames past the last full second, rounded to a whole frame. */
  function FramesField(frame: nat, fps: Rate): nat {
    RemainderInRange(frame, fps);
    Round(Remainder(frame as real, fps))
  }

  function TimeCode(h: nat, m: nat, s: nat, ff: nat): string {
    Pad(h) + ":" + Pad(m) + ":" + Pad(s) + ":" + Pad(ff)
  }

  /** HH:MM:SS:FF, with as many digits for the hours as they need. */
  function ToSMPTE(frame: nat, fps: Rate): string {
    var min := fps * 60.0;
    var hour := min * 60.0;
    var f := frame as real;
    TimeCode(Whole(f / hour), Whole(f / min) % 60, Whole(f / fps) % 60, FramesField(frame, fps))
  }

  /** The number in field `i`; None is NaN. */
  function Field(tc: string, i: nat): Option<nat> {
    var fields := Split(tc, ':');
    if i < |fields| && AllDigits(fields[i]) then Some(Value(fields[i])) else None
  }

  function ToSeconds(tc: string): Option<nat> {
    match (Field(tc, 0), Field(tc, 1), Field(tc, 2))
    case (Some(h), Some(m), Some(s)) => Some(h * 60 * 60 + m * 60 + s)
    case _ => None
  }

  /** A missing frames field counts as 0. */
  function ToMilliseconds(tc: string, fps: StoredRate): Option<int> {
    var frames := match Field(tc, 3) case Some(n) => n case None => 0;
    match ToSeconds(tc)
    case Some(s) => Some(MillisecondsOf(s, frames, fps))
    case None => None
  }

  function MillisecondsOf(s: nat, frames: nat, fps: StoredRate): int {
    ((s * 1000) as real + 1000.0 / fps * frames as real).Floor
  }

  function ToFrames(tc: string, fps: StoredRate): Option<int> {
    match (Field(tc, 0), Field(tc, 1), Field(tc, 2), Field(tc, 3))
    case (Some(h), Some(m), Some(s), Some(ff)) => Some(FramesOf(h, m, s, ff, fps))
    case _ => None
  }

  function FramesOf(h: nat, m: nat, s: nat, ff: nat, fps: StoredRate): int {
    ((h * 60 * 60) as real * fps + (m * 60) as real * fps + s as real * fps + ff as real).Floor
  }

  // ---------------------------------------------------------------- arithmetic

  lemma Scaled(a: real, b: real, c: real)
    requires c > 0.0
    ensures a < b <==> a * c < b * c
  {
    if a < b {
      assert (b - a) * c > 0.0;
    } else {
      assert (a - b) * c >= 0.0;
    }
  }

  lemma Distributes(a: real, b: real, c: real)
    ensures (a + b) * c == a * c + b * c
  {
  }

  lemma Undivided(a: real, b: real)
    requires b > 0.0
    ensures a / b * b == a
  {
  }

  lemma RemainderInRange(frame: nat, fps: Rate)
    ensures 0.0 <= Remainder(frame as real, fps) < fps
    ensures frame as real / fps >= 0.0
  {
    var x := frame as real / fps;
    Undivided(frame as real, fps);
    Within(frame as real, fps, x, x.Floor as real);
    Scaled(x, 0.0, fps);
  }

  lemma Within(f: real, fps: Rate, x: real, n: real)
    requires x * fps == f && n <= x < n + 1.0
    ensures 0.0 <= f - n * fps < fps
  {
    var d := x - n;
    assert d * fps == f - n * fps;
    assert d * fps >= 0.0;
    assert (1.0 - d) * fps > 0.0;
  }

  lemma FloorOfQuotient(x: real, n: int)
    requires n > 0
    ensures (x / n as real).Floor == x.Floor / n
  {
    var q := x.Floor / n;
    var y := x / n as real;
    Undivided(x, n as real);
    assert x.Floor == q * n + x.Floor % n;
    assert (q * n) as real == q as real * n as real;
    Scaled(y, q as real, n as real);
    Scaled(y, (q + 1) as real, n as real);
    Distributes(q as real, 1.0, n as real);
  }

  lemma QuotientOfQuotient(a: real, b: real, c: real)
    requires b > 0.0 && c > 0.0 && b * c > 0.0
    ensures a / (b * c) == a / b / c
  {
    var y := a / b / c;
    Undivided(a, b);
    Undivided(a / b, c);
    assert y * (b * c) == y * c * b;
    assert a == y * (b * c);
  }

  /** Hours, minutes and seconds all come from the count of full seconds. */
  lemma FullUnits(frame: nat, fps: Rate)
    ensures var s := FullSeconds(frame, fps);
            && (frame as real / (fps * 60.0)).Floor == s / 60
            && (frame as real / (fps * 60.0 * 60.0)).Floor == s / 60 / 60
            && frame as real / (fps * 60.0) >= 0.0
            && frame as real / (fps * 60.0 * 60.0) >= 0.0
  {
    RemainderInRange(frame, fps);
    var f := frame as real;
    QuotientOfQuotient(f, fps, 60.0);
    FloorOfQuotient(f / fps, 60);
    QuotientOfQuotient(f, fps * 60.0, 60.0);
    FloorOfQuotient(f / (fps * 60.0), 60);
  }

  lemma SecondsScaled(h: nat, m: nat, s: nat, fps: real)
    ensures (h * 60 * 60) as real * fps + (m * 60) as real * fps
            + s as real * fps == (h * 60 * 60 + m * 60 + s) as real * fps
  {
    Distributes((h * 60 * 60) as real, (m * 60) as real, fps);
    Distributes((h * 60 * 60 + m * 60) as real, s as real, fps);
  }

  lemma UnitsOf(s: nat)
    ensures s == s / 60 / 60 * 60 * 60 + s / 60 % 60 * 60 + s % 60
  {
  }

  lemma UnitsBack(h: nat, m: nat, s: nat)
    requires m < 60 && s < 60
    ensures var t := h * 60 * 60 + m * 60 + s;
            t / 60 / 60 == h && t / 60 % 60 == m && t % 60 == s
  {
    assert (h * 60 * 60 + m * 60 + s) / 60 == h * 60 + m;
  }

  lemma DivMod(n: nat, q: nat, d: nat, r: nat)
    requires r < d && n == q * d + r
    ensures n / d == q && n % d == r
  {
    var p := n / d;
    assert n == p * d + n % d;
    if p < q {
      MulMono(p + 1, q, d);
    } else if q < p {
      MulMono(q + 1, p, d);
    }
  }

  lemma MulMono(a: nat, b: nat, c: nat)
    requires a <= b
    ensures a * c <= b * c
  {
    assert (b - a) * c >= 0;
  }

  // ---------------------------------------------------------------- printing and parsing

  lemma FourFields(h: nat, m: nat, s: nat, ff: nat)
    ensures var tc := TimeCode(h, m, s, ff);
            Field(tc, 0) == Some(h) && Field(tc, 1) == Some(m) && Field(tc, 2) == Some(s) && Field(tc, 3) == Some(ff)
  {
    var parts := [Pad(h), Pad(m), Pad(s), Pad(ff)];
    PadThenValue(h);
    PadThenValue(m);
    PadThenValue(s);
    PadThenValue(ff);
    forall k | 0 <= k < 4 ensures ':' !in parts[k] {
      DigitsHaveNo(parts[k], ':');
    }
    JoinThenSplit(parts, ':');
    assert parts[1..][1..] == parts[2..] && parts[2..][1..] == parts[3..];
    assert Join(parts[3..], ':') == Pad(ff);
    assert Join(parts[2..], ':') == Pad(s) + ":" + Pad(ff);
    assert Join(parts[1..], ':') == Pad(m) + ":" + (Pad(s) + ":" + Pad(ff));
    assert Join(parts, ':') == Pad(h) + ":" + Pad(m) + ":" + Pad(s) + ":" + Pad(ff);
  }

  /** A time code without a frames field is that many whole seconds. */
  lemma ThreeFields(h: nat, m: nat, s: nat, fps: StoredRate)
    ensures var tc := Pad(h) + ":" + Pad(m) + ":" + Pad(s);
            && ToSeconds(tc) == Some(h * 60 * 60 + m * 60 + s)
            && ToMilliseconds(tc, fps) == Some(1000 * (h * 60 * 60 + m * 60 + s))
            && ToFrames(tc, fps) == None
  {
    PadThenValue(h);
    PadThenValue(m);
    PadThenValue(s);
    ThreeSplit(Pad(h), Pad(m), Pad(s));
    hide Pad, Split, Value;
    assert MillisecondsOf(h * 60 * 60 + m * 60 + s, 0, fps) == 1000 * (h * 60 * 60 + m * 60 + s);
  }

  lemma ThreeSplit(a: string, b: string, c: string)
    requires AllDigits(a) && AllDigits(b) && AllDigits(c)
    ensures Split(a + ":" + b + ":" + c, ':') == [a, b, c]
  {
    DigitsHaveNo(a, ':');
    DigitsHaveNo(b, ':');
    DigitsHaveNo(c, ':');
    hide Split;
    assert a + ":" + b + ":" + c == a + [':'] + (b + [':'] + c);
    SplitFirst(a, b + [':'] + c, ':');
    SplitFirst(b, c, ':');
    SplitFirst(c, "", ':');
  }

  /** What is printed, in terms of the full seconds before the frame. */
  lemma SmpteOfSeconds(frame: nat, fps: Rate)
    ensures var s := FullSeconds(frame, fps);
            ToSMPTE(frame, fps) == TimeCode(s / 60 / 60, s / 60 % 60, s % 60, FramesField(frame, fps))
  {
    hide TimeCode, FramesField;
    FullUnits(frame, fps);
  }

  lemma SmpteFields(frame: nat, fps: Rate)
    ensures var tc, s := ToSMPTE(frame, fps), FullSeconds(frame, fps);
            && Field(tc, 0) == Some(s / 60 / 60) && Field(tc, 1) == Some(s / 60 % 60) && Field(tc, 2) == Some(s % 60)
            && Field(tc, 3) == Some(FramesField(frame, fps))
            && ToSeconds(tc) == Some(s)
  {
    hide ToSMPTE, TimeCode, FramesField, FullSeconds, Field;
    SmpteOfSeconds(frame, fps);
    var s := FullSeconds(frame, fps);
    FourFields(s / 60 / 60, s / 60 % 60, s % 60, FramesField(frame, fps));
    UnitsOf(s);
  }

  lemma FramesOfSeconds(h: nat, m: nat, s: nat, ff: nat, fps: Rate)
    ensures FramesOf(h, m, s, ff, fps) == ((h * 60 * 60 + m * 60 + s) as real * fps + ff as real).Floor
  {
    SecondsScaled(h, m, s, fps);
  }

  /** Reading back the printed time code adds the rounding error of the frames field. */
  lemma SmpteThenFrames(frame: nat, fps: Rate)
    ensures var r := Remainder(frame as real, fps);
            ToFrames(ToSMPTE(frame, fps), fps) == Some((frame as real + (Round(r) as real - r)).Floor)
  {
    hide Field, ToSMPTE, Round, FullSeconds, Remainder, FramesOf;
    SmpteFields(frame, fps);
    var s := FullSeconds(frame, fps);
    var h, m, ss, ff := s / 60 / 60, s / 60 % 60, s % 60, FramesField(frame, fps);
    UnitsOf(s);
    FramesOfSeconds(h, m, ss, ff, fps);
    assert h * 60 * 60 + m * 60 + ss == s;
    SecondsAndRest(frame, fps);
    var r := Remainder(frame as real, fps);
    assert ff == Round(r);
    assert ToFrames(ToSMPTE(frame, fps), fps) == Some(FramesOf(h, m, ss, ff, fps));
    assert FramesOf(h, m, ss, ff, fps) == (s as real * fps + ff as real).Floor;
    assert s as real * fps + ff as real == frame as real + (ff as real - r);
  }

  lemma RoundingError(frame: int, r: real)
    ensures var g := (frame as real + (Round(r) as real - r)).Floor;
            (g == frame || g == frame - 1) && (g == frame <==> Round(r) as real >= r)
  {
    var d := Round(r) as real - r;
    assert -0.5 < d <= 0.5;
    assert frame as real + d < (frame + 1) as real;
  }

  /** A frame comes back as itself, or as the one before: exactly when its frames field is rounded down. */
  lemma FramesRoundTrip(frame: nat, fps: Rate)
    ensures var back, r := ToFrames(ToSMPTE(frame, fps), fps), Remainder(frame as real, fps);
            var part := r - r.Floor as real;
            && (back == Some(frame) || back == Some(frame - 1))
            && (back == Some(frame) <==> part == 0.0 || part >= 0.5)
  {
    RoundedUp(Remainder(frame as real, fps));
    hide ToFrames, ToSMPTE, Remainder, Round;
    SmpteThenFrames(frame, fps);
    RoundingError(frame, Remainder(frame as real, fps));
  }

  lemma RoundedUp(r: real)
    ensures Round(r) as real >= r <==> r - r.Floor as real == 0.0 || r - r.Floor as real >= 0.5
  {
    var n := r.Floor;
    if r - n as real >= 0.5 {
      assert (r + 0.5).Floor == n + 1;
    } else {
      assert (r + 0.5).Floor == n;
    }
  }

  /** The printed fields are the hours, minutes and seconds of the full seconds before the frame, and
      the nearest whole number of the frames since, the larger of two that are equally near. */
  lemma TimeCodeExact(frame: nat, fps: Rate)
    ensures exists s: nat, n: nat :: IsTimeOf(frame, fps, s, n)
              && ToSMPTE(frame, fps) == TimeCode(s / 60 / 60, s / 60 % 60, s % 60, n)
  {
    hide ToSMPTE, TimeCode, IsTimeOf, FullSeconds, FramesField;
    SmpteOfSeconds(frame, fps);
    FieldsAreTime(frame, fps);
  }

  lemma FieldsAreTime(frame: nat, fps: Rate)
    ensures IsTimeOf(frame, fps, FullSeconds(frame, fps), FramesField(frame, fps))
  {
    SecondsAndRest(frame, fps);
    RemainderInRange(frame, fps);
    var s, n, r := FullSeconds(frame, fps), FramesField(frame, fps), Remainder(frame as real, fps);
    assert n as real <= r + 0.5 < n as real + 1.0;
    hide FullSeconds, Remainder, FramesField, Round;
    Distributes(s as real, 1.0, fps);
  }

  /** After `s` full seconds, `n` is the nearest whole number of frames up to this one. */
  predicate IsTimeOf(frame: nat, fps: Rate, s: nat, n: nat) {
    && s as real * fps <= frame as real < (s as real + 1.0) * fps
    && n as real - 0.5 <= frame as real - s as real * fps < n as real + 0.5
  }

  lemma HourFields()
    ensures FullSeconds(86439, 24.0) == 3601 && FramesField(86439, 24.0) == 15
  {
    hide FullSeconds, FramesField, Remainder;
    WholeRemainder(86439, 24);
  }

  lemma HourPadded()
    ensures TimeCode(1, 0, 1, 15) == "01:00:01:15"
  {
    assert Pad(0) == "00" && Pad(1) == "01" && Pad(15) == "15";
  }

  /** Frame 86439 at 24 frames per second is one hour, one second and 15 frames. */
  lemma HourIntoIt()
    ensures ToSMPTE(86439, 24.0) == "01:00:01:15"
  {
    HourFields();
    HourPadded();
    hide TimeCode, ToSMPTE, FullSeconds, FramesField;
    SmpteOfSeconds(86439, 24.0);
  }

  lemma WholeRemainder(frame: nat, rate: nat)
    requires rate > 0
    ensures Remainder(frame as real, rate as real) == (frame % rate) as real
    ensures FramesField(frame, rate as real) == frame % rate
    ensures FullSeconds(frame, rate as real) == frame / rate
  {
    FloorOfQuotient(frame as real, rate);
    assert (frame as real).Floor == frame;
    assert (frame / rate * rate) as real == (frame / rate) as real * rate as real;
  }

  /** At whole frame rates every frame comes back as itself. */
  lemma WholeRateRoundTrip(frame: nat, rate: nat)
    requires rate > 0
    ensures ToFrames(ToSMPTE(frame, rate as real), rate as real) == Some(frame)
  {
    WholeRemainder(frame, rate);
    FramesRoundTrip(frame, rate as real);
  }

  function FrameOf(h: nat, m: nat, s: nat, ff: nat, rate: nat): nat {
    (h * 60 * 60 + m * 60 + s) * rate + ff
  }

  lemma FramesOfWhole(h: nat, m: nat, s: nat, ff: nat, rate: nat)
    requires rate > 0
    ensures FramesOf(h, m, s, ff, rate as real) == FrameOf(h, m, s, ff, rate)
  {
    FramesOfSeconds(h, m, s, ff, rate as real);
    var seconds := h * 60 * 60 + m * 60 + s;
    assert seconds as real * rate as real == (seconds * rate) as real;
  }

  lemma PrintedAs(h: nat, m: nat, s: nat, ff: nat, rate: nat)
    requires m < 60 && s < 60 && ff < rate
    ensures ToSMPTE(FrameOf(h, m, s, ff, rate), rate as real) == TimeCode(h, m, s, ff)
  {
    hide ToSMPTE, TimeCode, Remainder, FramesField, FullSeconds;
    var frame := FrameOf(h, m, s, ff, rate);
    DivMod(frame, h * 60 * 60 + m * 60 + s, rate, ff);
    WholeRemainder(frame, rate);
    SmpteOfSeconds(frame, rate as real);
    UnitsBack(h, m, s);
  }

  /** The other way round: every time code with its fields in range is printed for the frame it is read as. */
  lemma TimeCodeRoundTrip(h: nat, m: nat, s: nat, ff: nat, rate: nat)
    requires m < 60 && s < 60 && ff < rate
    ensures var tc := TimeCode(h, m, s, ff);
            var frame := FrameOf(h, m, s, ff, rate);
            ToFrames(tc, rate as real) == Some(frame) && ToSMPTE(frame, rate as real) == tc
  {
    hide ToSMPTE, Field, TimeCode, FrameOf, FramesOf;
    FourFields(h, m, s, ff);
    FramesOfWhole(h, m, s, ff, rate);
    PrintedAs(h, m, s, ff, rate);
  }

  // ---------------------------------------------------------------- seeking

  function FrameAt(time: real, fps: StoredRate): int {
    (time * fps).Floor
  }

  /** The time that seeking to a frame sets. */
  function TimeOfFrame(frame: nat, fps: Rate): real {
    match ToMilliseconds(ToSMPTE(frame, fps), fps)
    case Some(ms) => ms as real / 1000.0 + 0.001
    case None => 0.0
  }

  /** The frame that is shown after seeking to a frame. */
  function Shown(frame: nat, fps: Rate): int {
    FrameAt(TimeOfFrame(frame, fps), fps)
  }

  ghost predicate EveryFrameShown(fps: Rate) {
    forall frame: nat :: Shown(frame, fps) == frame
  }

  lemma MillisecondsLand(s: nat, n: nat, ms: int, fps: Rate)
    requires ms == MillisecondsOf(s, n, fps)
    ensures var f := s as real * fps + n as real;
            f < (ms as real / 1000.0 + 0.001) * fps <= f + fps / 1000.0
  {
    var y := s as real + 1.0 / fps * n as real;
    var t := ms as real / 1000.0 + 0.001;
    Undivided(1000.0, fps);
    Undivided(1.0, fps);
    assert 1000.0 / fps == 1000.0 * (1.0 / fps);
    assert 1000.0 / fps * n as real == 1000.0 * (1.0 / fps * n as real);
    assert y < t <= y + 0.001;
    Scaled(y, t, fps);
    Scaled(y + 0.001, t, fps);
    Distributes(y, 0.001, fps);
    Distributes(s as real, 1.0 / fps * n as real, fps);
    assert 1.0 / fps * n as real * fps == 1.0 / fps * fps * n as real;
  }

  /** The millisecond added makes up for the fraction of a millisecond cut off, and no more than that. */
  lemma SeekLands(frame: nat, fps: Rate)
    ensures var r := Remainder(frame as real, fps);
            var f := frame as real + (Round(r) as real - r);
            f < TimeOfFrame(frame, fps) * fps <= f + fps / 1000.0
    ensures ToMilliseconds(ToSMPTE(frame, fps), fps).Some?
  {
    hide Field, ToSMPTE, Round, ToSeconds, FullSeconds, Remainder, MillisecondsOf;
    SmpteFields(frame, fps);
    var s := FullSeconds(frame, fps);
    var ms := MillisecondsOf(s, FramesField(frame, fps), fps);
    assert ToMilliseconds(ToSMPTE(frame, fps), fps) == Some(ms);
    RemainderInRange(frame, fps);
    MillisecondsLand(s, FramesField(frame, fps), ms, fps);
    SecondsAndRest(frame, fps);
  }

  /** The frame that the printed time code stands for, when its frames field is taken as it is. */
  function Printed(frame: nat, fps: Rate): real {
    var r := Remainder(frame as real, fps);
    frame as real + (Round(r) as real - r)
  }

  function Milliseconds(frames: real, fps: Rate): real {
    1000.0 * (frames / fps)
  }

  lemma MillisecondsOfPrinted(s: nat, n: nat, fps: Rate)
    ensures MillisecondsOf(s, n, fps) == Milliseconds(s as real * fps + n as real, fps).Floor
  {
    var f := s as real * fps + n as real;
    var q := 1.0 / fps;
    Undivided(1.0, fps);
    Undivided(f, fps);
    var one := q * fps;
    assert f * q * fps == f * one;
    Unscaled(f / fps, f * q, fps);
    Distributes(s as real * fps, n as real, q);
    assert s as real * fps * q == s as real * (fps * q);
    assert 1000.0 / fps == 1000.0 * q;
  }

  lemma Unscaled(a: real, b: real, c: real)
    requires c > 0.0 && a * c == b * c
    ensures a == b
  {
    Scaled(a, b, c);
    Scaled(b, a, c);
  }

  /** Seeking sets the first whole millisecond after the printed time. */
  lemma SeekSetsNextMillisecond(frame: nat, fps: Rate)
    ensures TimeOfFrame(frame, fps) == (Milliseconds(Printed(frame, fps), fps).Floor + 1) as real / 1000.0
  {
    hide Field, ToSMPTE, Round, ToSeconds, FullSeconds, Remainder, MillisecondsOf, Milliseconds;
    SmpteFields(frame, fps);
    var s, n := FullSeconds(frame, fps), FramesField(frame, fps);
    MillisecondsOfPrinted(s, n, fps);
    SecondsAndRest(frame, fps);
    assert Printed(frame, fps) == s as real * fps + n as real;
  }

  lemma MillisecondReaches(ms: int, frames: real, fps: Rate)
    ensures ms as real / 1000.0 * fps >= frames <==> ms as real >= Milliseconds(frames, fps)
  {
    Undivided(frames, fps);
    Scaled(ms as real / 1000.0, frames / fps, fps);
  }

  /** At every rate, seeking shows the requested frame exactly when the first whole millisecond after
      the printed time lies within the time of that frame. */
  lemma SeekShowsExactly(frame: nat, fps: Rate)
    ensures var ms := Milliseconds(Printed(frame, fps), fps).Floor + 1;
            Shown(frame, fps) == frame <==>
            Milliseconds(frame as real, fps) <= ms as real < Milliseconds((frame + 1) as real, fps)
  {
    hide Printed, Milliseconds, TimeOfFrame;
    var ms := Milliseconds(Printed(frame, fps), fps).Floor + 1;
    SeekSetsNextMillisecond(frame, fps);
    MillisecondReaches(ms, frame as real, fps);
    MillisecondReaches(ms, (frame + 1) as real, fps);
  }

  predicate IsBetween(a: real, k: int, b: real) {
    a < k as real < b
  }

  ghost predicate WholeBetween(a: real, b: real) {
    exists k :: IsBetween(a, k, b)
  }

  lemma NoneBetween(a: real, b: real)
    ensures WholeBetween(a, b) <==> (a.Floor + 1) as real < b
  {
    var next := a.Floor + 1;
    if next as real < b {
      assert IsBetween(a, next, b);
    }
    if k :| IsBetween(a, k, b) {
      assert k >= next;
    }
  }

  /** Seeking to a frame shows that frame or the one before, at any rate below 500; it shows the
      frame itself exactly when no whole millisecond lies between the printed time and its own. */
  lemma SeekNear(frame: nat, fps: Rate)
    requires fps < 500.0
    ensures Shown(frame, fps) == frame || Shown(frame, fps) == frame - 1
    ensures Shown(frame, fps) == frame <==>
            !WholeBetween(Milliseconds(Printed(frame, fps), fps), Milliseconds(frame as real, fps))
  {
    ShownNear(frame, fps);
    ShownReaches(frame, fps);
    NoneBetween(Milliseconds(Printed(frame, fps), fps), Milliseconds(frame as real, fps));
    hide Shown, Printed, Milliseconds, WholeBetween;
  }

  lemma ShownReaches(frame: nat, fps: Rate)
    ensures Shown(frame, fps) >= frame <==>
            (Milliseconds(Printed(frame, fps), fps).Floor + 1) as real >= Milliseconds(frame as real, fps)
  {
    hide Printed, Milliseconds, TimeOfFrame;
    SeekSetsNextMillisecond(frame, fps);
    MillisecondReaches(Milliseconds(Printed(frame, fps), fps).Floor + 1, frame as real, fps);
  }

  lemma ShownNear(frame: nat, fps: Rate)
    requires fps < 500.0
    ensures Shown(frame, fps) == frame || Shown(frame, fps) == frame - 1
  {
    hide TimeOfFrame, ToSMPTE, ToMilliseconds, Remainder;
    SeekLands(frame, fps);
  }

  /** Frame 30 at 29.97 frames per second is printed as one second and no frames, and read back as frame 29. */
  lemma FrameMisread()
    ensures ToFrames(ToSMPTE(30, 29.97), 29.97) == Some(29)
  {
    ThirtyPrinted();
    SmpteThenFrames(30, 29.97);
    hide Remainder, ToSMPTE, ToFrames, Round;
    assert (30.0 + (0.0 - 0.03)).Floor == 29;
  }

  /** Seeking to frame 30 at 29.97 frames per second shows frame 29. */
  lemma FrameMissed()
    ensures Shown(30, 29.97) == 29
  {
    ThirtyPrinted();
    SeekSetsNextMillisecond(30, 29.97);
    assert Milliseconds(29.97, 29.97).Floor == 1000;
    hide Printed, TimeOfFrame, Milliseconds;
    assert TimeOfFrame(30, 29.97) == 1.001;
  }

  lemma ThirtyPrinted()
    ensures Remainder(30 as real, 29.97) == 0.03 && Round(0.03) == 0
    ensures Printed(30, 29.97) == 29.97
  {
    Undivided(30.0, 29.97);
    var x := 30.0 / 29.97;
    Scaled(x, 1.0, 29.97);
    Scaled(x, 2.0, 29.97);
    assert x.Floor == 1;
  }

  lemma WholeRateSeek(frame: nat, rate: nat)
    requires 0 < rate < 1000
    ensures Shown(frame, rate as real) == frame
  {
    hide TimeOfFrame, ToSMPTE, ToMilliseconds, Remainder;
    WholeRemainder(frame, rate);
    SeekLands(frame, rate as real);
  }

  /** At whole rates, seeking shows every requested frame exactly when the rate is below 1000. */
  lemma SeekExact(rate: nat)
    requires rate > 0
    ensures EveryFrameShown(rate as real) <==> rate < 1000
  {
    if rate < 1000 {
      var fps: Rate := rate as real;
      forall frame: nat ensures Shown(frame, fps) == frame {
        WholeRateSeek(frame, rate);
      }
    } else {
      FirstFrameMissed(rate as real);
    }
  }

  lemma FirstFrameMissed(fps: Rate)
    requires fps >= 1000.0
    ensures Shown(0, fps) != 0
  {
    SmpteFields(0, fps);
    Undivided(0.0, fps);
    assert FullSeconds(0, fps) == 0;
    assert FramesField(0, fps) == 0;
    assert MillisecondsOf(0, 0, fps) == 0;
    assert TimeOfFrame(0, fps) == 0.001;
    Scaled(1000.0, fps, 0.001);
  }

  /** The time that a step of `n` frames sets. */
  function Stepped(time: real, n: int, fps: StoredRate): real {
    (FrameAt(time, fps) + n) as real / fps + 0.00001
  }

  /** The whole frames in the 10 microseconds that a step adds. */
  function Drift(fps: StoredRate): int {
    (fps / 100000.0).Floor
  }

  lemma DriftExact(fps: StoredRate)
    ensures Drift(fps) == 0 <==> 0.0 < fps < 100000.0
  {
  }

  /** A step moves by exactly `n` frames and the drift. */
  lemma StepLands(time: real, n: int, fps: StoredRate)
    ensures FrameAt(Stepped(time, n, fps), fps) == FrameAt(time, fps) + n + Drift(fps)
  {
    var k := (FrameAt(time, fps) + n) as real;
    assert k / fps * fps == k;
    assert Stepped(time, n, fps) * fps == k + fps / 100000.0;
  }

  /** Stepping forward and back again ends on the frame it began with, exactly at positive rates below 100000. */
  lemma ThereAndBack(time: real, n: int, fps: StoredRate)
    ensures FrameAt(Stepped(Stepped(time, n, fps), -n, fps), fps) == FrameAt(time, fps) <==> 0.0 < fps < 100000.0
  {
    StepLands(time, n, fps);
    StepLands(Stepped(time, n, fps), -n, fps);
    DriftExact(fps);
  }

  function Sum(steps: seq<int>): int {
    if steps == [] then 0 else Sum(steps[..|steps| - 1]) + steps[|steps| - 1]
  }

  function SteppedAll(time: real, steps: seq<int>, fps: StoredRate): real {
    if steps == [] then time else Stepped(SteppedAll(time, steps[..|steps| - 1], fps), steps[|steps| - 1], fps)
  }

  /** Over a whole run of steps the frame moves by their sum, and by the drift of each step: at
      positive rates below 100000 the added microseconds never add up to a frame. */
  lemma {:induction false} StepsAddUp(time: real, steps: seq<int>, fps: StoredRate)
    ensures FrameAt(SteppedAll(time, steps, fps), fps) == FrameAt(time, fps) + Sum(steps) + |steps| * Drift(fps)
    ensures 0.0 < fps < 100000.0 ==> FrameAt(SteppedAll(time, steps, fps), fps) == FrameAt(time, fps) + Sum(steps)
  {
    DriftExact(fps);
    if steps != [] {
      var front, last := steps[..|steps| - 1], steps[|steps| - 1];
      StepsAddUp(time, front, fps);
      StepLands(SteppedAll(time, front, fps), last, fps);
      hide Stepped, FrameAt, Drift;
      assert |steps| * Drift(fps) == |front| * Drift(fps) + Drift(fps);
    }
  }

  datatype Direction = Forward | Backward

  class Player {
    var currentTime: real
    var paused: bool
    const frameRate: StoredRate

    /** A rate of 0, or none, means 24 frames per second. */
    constructor (rate: Option<real>, time: real)
      ensures frameRate == if rate.None? || rate.value == 0.0 then 24.0 else rate.value
      ensures currentTime == time
    {
      frameRate := if rate.None? || rate.value == 0.0 then 24.0 else rate.value;
      currentTime, paused := time, true;
    }

    function Get(): int
      reads this`currentTime
    {
      FrameAt(currentTime, frameRate)
    }

    method Seek(direction: Direction, frames: int)
      modifies this
      ensures paused
      ensures currentTime == Stepped(old(currentTime), if direction == Backward then -frames else frames, frameRate)
      ensures 0.0 < frameRate < 100000.0 ==> Get() == old(Get()) + if direction == Backward then -frames else frames
    {
      if !paused {
        paused := true;
      }
      var frame := Get();
      StepLands(currentTime, if direction == Backward then -frames else frames, frameRate);
      DriftExact(frameRate);
      currentTime := (if direction == Backward then frame - frames else frame + frames) as real / frameRate + 0.00001;
    }

    method SeekForward(frames: int)
      modifies this
      ensures currentTime == Stepped(old(currentTime), if frames == 0 then 1 else frames, frameRate)
      ensures 0.0 < frameRate < 100000.0 ==> Get() == old(Get()) + if frames == 0 then 1 else frames
    {
      Seek(Forward, if frames == 0 then 1 else frames);
    }

    method SeekBackward(frames: int)
      modifies this
      ensures currentTime == Stepped(old(currentTime), if frames == 0 then -1 else -frames, frameRate)
      ensures 0.0 < frameRate < 100000.0 ==> Get() == old(Get()) - if frames == 0 then 1 else frames
    {
      Seek(Backward, if frames == 0 then 1 else frames);
    }

    /** A text that is no time code gives NaN, which the video element refuses. */
    method SeekToSMPTE(tc: string) returns (ok: bool)
      modifies this`currentTime
      ensures ok <==> ToSeconds(tc).Some?
      ensures ok ==> currentTime == ToMilliseconds(tc, frameRate).value as real / 1000.0 + 0.001
      ensures !ok ==> currentTime == old(currentTime)
    {
      match ToMilliseconds(tc, frameRate)
      case Some(ms) =>
        currentTime := ms as real / 1000.0 + 0.001;
        ok := true;
      case None =>
        ok := false;
    }

    method SeekToFrame(frame: nat)
      requires frameRate > 0.0
      modifies this`currentTime
      ensures currentTime == TimeOfFrame(frame, frameRate) && Get() == Shown(frame, frameRate)
      ensures frameRate < 500.0 ==> Get() == frame || Get() == frame - 1
    {
      SeekLands(frame, frameRate);
      var ok := SeekToSMPTE(ToSMPTE(frame, frameRate));
      if frameRate < 500.0 {
        SeekNear(frame, frameRate);
      }
    }
  }
}

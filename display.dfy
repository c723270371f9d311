/** The two display helpers that the voting page and the project form define
    identically: the shortened address in the header and the countdown to a
    deadline. */
module Display {
  import opened JsString

  function Min(a: int, b: int): int {
    if a <= b then a else b
  }

  /** `formatAddress`: empty for an empty address; otherwise the first six
      characters, `...`, and the last four (JavaScript's `substring` clamps, so a
      shorter address shows in full on both sides). */
  function FormatAddress(address: string): (r: string)
    ensures address == [] <==> r == []
    ensures address != [] ==>
      var head, tail := Min(6, |address|), Min(4, |address|);
      && |r| == head + 3 + tail
      && r[..head] == address[..head]
      && r[head..head + 3] == "..."
      && r[head + 3..] == address[|address| - tail..]
  {
    if address == [] then []
    else
      var first := Substring(address, 0, 6);
      var last := Substring(address, |address| - 4, |address|);
      assert first == address[..Min(6, |address|)];
      assert last == address[|address| - Min(4, |address|)..];
      first + "..." + last
  }

  /** An Ethereum address (`0x` and forty hex digits) shows as thirteen characters:
      `0x`, four digits, `...`, the last four digits. */
  lemma FormatEthereumAddress(address: string)
    requires |address| == 42
    ensures var r := FormatAddress(address);
      |r| == 13 && r[..6] == address[..6] && r[6..9] == "..." && r[9..] == address[38..]
  {
  }

  /** The countdown the pages display. */
  datatype TimeLeft = TimeLeft(days: int, hours: int, minutes: int, seconds: int)

  const NoTimeLeft := TimeLeft(0, 0, 0, 0)

  const MsPerSecond := 1000
  const MsPerMinute := 1000 * 60
  const MsPerHour := 1000 * 60 * 60
  const MsPerDay := 1000 * 60 * 60 * 24

  /** `calculateTimeLeft` on a millisecond difference, with integer division:
      all zeros when the deadline has passed, otherwise whole days and the
      hours, minutes and seconds left over. */
  function TimeLeftOf(difference: int): (t: TimeLeft)
    ensures difference <= 0 ==> t == NoTimeLeft
    ensures difference > 0 ==>
      && t.days >= 0 && 0 <= t.hours < 24 && 0 <= t.minutes < 60 && 0 <= t.seconds < 60
  {
    if difference > 0 then
      TimeLeft(difference / MsPerDay, (difference / MsPerHour) % 24,
               (difference / MsPerMinute) % 60, (difference / MsPerSecond) % 60)
    else NoTimeLeft
  }

  /** The four fields together give back the whole seconds of the difference. */
  lemma TimeLeftReconstructs(difference: int)
    requires difference > 0
    ensures var t := TimeLeftOf(difference);
      t.days * 86400 + t.hours * 3600 + t.minutes * 60 + t.seconds == difference / 1000
  {
    var s := difference / 1000;
    var m := s / 60;
    var h := m / 60;
    assert difference / MsPerMinute == m;
    assert difference / MsPerHour == h;
    assert difference / MsPerDay == h / 24;
  }

  /** JavaScript's `%` on numbers: the remainder of the division truncated toward zero. */
  function JsRem(a: real, n: real): real
    requires n != 0.0
  {
    var q := a / n;
    var truncated := if q >= 0.0 then q.Floor else -((-q).Floor);
    a - n * truncated as real
  }

  /** `calculateTimeLeft` as the source writes it, on real numbers:
      `Math.floor` is `.Floor` and `%` is `JsRem`. */
  function JsTimeLeft(difference: real): TimeLeft {
    if difference > 0.0 then
      TimeLeft((difference / (1000.0 * 60.0 * 60.0 * 24.0)).Floor,
               JsRem(difference / (1000.0 * 60.0 * 60.0), 24.0).Floor,
               JsRem(difference / 1000.0 / 60.0, 60.0).Floor,
               JsRem(difference / 1000.0, 60.0).Floor)
    else NoTimeLeft
  }

  lemma FloorOfIntPlusFraction(m: int, f: real)
    requires 0.0 <= f < 1.0
    ensures (m as real + f).Floor == m
  {
  }

  /** Real division of integers splits into the integer quotient and a fraction below 1. */
  lemma DivAsReal(x: int, k: int)
    requires k > 0
    ensures var f := (x % k) as real / k as real;
      0.0 <= f < 1.0 && x as real / k as real == (x / k) as real + f
  {
    var q, r := x / k, x % k;
    assert x == k * q + r;
    assert x as real == k as real * q as real + r as real;
  }

  /** `Math.floor(x / k)` is `x / k` with integer division. */
  lemma FloorDiv(x: int, k: int)
    requires k > 0
    ensures (x as real / k as real).Floor == x / k
  {
    DivAsReal(x, k);
    FloorOfIntPlusFraction(x / k, (x % k) as real / k as real);
  }

  lemma DivAddReal(n: real, m: real, x: real)
    requires n > 0.0
    ensures (n * m + x) / n == m + x / n
  {
  }

  lemma DivBelowOne(x: real, n: real)
    requires 0.0 <= x < n
    ensures 0.0 <= x / n < 1.0
  {
  }

  /** JavaScript's `%` on a non-negative whole number plus a fraction keeps the
      fraction and takes the whole part modulo `n`. */
  lemma JsRemOfIntPlusFraction(q: int, n: int, f: real)
    requires q >= 0 && n > 0 && 0.0 <= f < 1.0
    ensures JsRem(q as real + f, n as real) == (q % n) as real + f
  {
    var m, b := q / n, q % n;
    var nr, mr, br := n as real, m as real, b as real;
    assert q as real == nr * mr + br by {
      assert q == n * m + b;
    }
    var a := q as real + f;
    assert a == nr * mr + (br + f);
    DivAddReal(nr, mr, br + f);
    var g := (br + f) / nr;
    assert a / nr == mr + g;
    DivBelowOne(br + f, nr);
    FloorOfIntPlusFraction(m, g);
    assert JsRem(a, nr) == a - nr * mr;
  }

  /** `Math.floor((x / k) % n)` is `(x / k) % n` with integer division, for x >= 0:
      the fraction that the real division leaves never reaches the next unit. */
  lemma FloorRemDiv(x: int, k: int, n: int)
    requires x >= 0 && k > 0 && n > 0
    ensures JsRem(x as real / k as real, n as real).Floor == (x / k) % n
  {
    var f := (x % k) as real / k as real;
    DivAsReal(x, k);
    JsRemOfIntPlusFraction(x / k, n, f);
    FloorOfIntPlusFraction((x / k) % n, f);
  }

  lemma JsHoursMatch(difference: int)
    requires difference > 0
    ensures JsRem(difference as real / (1000.0 * 60.0 * 60.0), 24.0).Floor == (difference / MsPerHour) % 24
  {
    FloorRemDiv(difference, MsPerHour, 24);
  }

  lemma JsMinutesMatch(difference: int)
    requires difference > 0
    ensures JsRem(difference as real / 1000.0 / 60.0, 60.0).Floor == (difference / MsPerMinute) % 60
  {
    assert difference as real / 1000.0 / 60.0 == difference as real / MsPerMinute as real;
    FloorRemDiv(difference, MsPerMinute, 60);
  }

  /** The integer model computes exactly what the source's floating-point
      expression computes on exact reals, for every whole-millisecond difference. */
  lemma JsTimeLeftMatches(difference: int)
    ensures JsTimeLeft(difference as real) == TimeLeftOf(difference)
  {
    if difference > 0 {
      FloorDiv(difference, MsPerDay);
      JsHoursMatch(difference);
      JsMinutesMatch(difference);
      FloorRemDiv(difference, MsPerSecond, 60);
    }
  }
}

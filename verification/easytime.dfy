/** The compact elapsed-time text of the status page (`p_log_easytime`,
    src/p_log.c): a number of seconds is split into weeks, days, hours,
    minutes and seconds, and the two most significant non-zero-led units are
    printed, as in "3w2d" or "0m0s". */
module EasyTime {
  import opened Bytes

  /** The five components as the C stores them: each in a uint16_t. */
  datatype Parts = Parts(w: uint16, d: uint16, h: uint16, m: uint16, s: uint16)

  /** The C's successive "take the remainder, subtract, divide" steps. */
  function Decompose(t: nat): (p: Parts)
    ensures p.s == t % 60
    ensures p.m == (t / 60) % 60
    ensures p.h == (t / 3600) % 24
    ensures p.d == (t / 86400) % 7
    ensures p.w == (t / 604800) % 0x1_0000
  {
    var s := t % 60;
    var t1 := (t - s) / 60;
    var m := t1 % 60;
    var t2 := (t1 - m) / 60;
    var h := t2 % 24;
    var t3 := (t2 - h) / 24;
    var d := t3 % 7;
    var t4 := (t3 - d) / 7;
    StepIsDiv(t, 60);
    StepIsDiv(t1, 60);
    StepIsDiv(t2, 24);
    StepIsDiv(t3, 7);
    DivDiv(t, 60, 60);
    DivDiv(t, 3600, 24);
    DivDiv(t, 86400, 7);
    Parts(t4 % 0x1_0000, d, h, m, s)
  }

  lemma StepIsDiv(t: nat, k: nat)
    requires k > 0
    ensures (t - t % k) / k == t / k
  {
    assert t == (t / k) * k + t % k;
    DivModUnique(t - t % k, k, t / k, 0);
  }

  lemma DivDiv(t: nat, a: nat, b: nat)
    requires a > 0 && b > 0
    ensures (t / a) / b == t / (a * b)
  {
    var q := t / (a * b);
    var r := t % (a * b);
    assert t == q * (a * b) + r;
    var u := r / a;
    assert r == u * a + r % a;
    assert t == (q * b + u) * a + r % a;
    DivModUnique(t, a, q * b + u, r % a);
    assert u * a <= r < a * b;
    assert u < b by {
      if u >= b {
        MulLe(b, u, a);
      }
    }
    DivModUnique(t / a, b, q, u);
  }

  /** Putting the parts back together gives the time again, as long as the
      week count did not overflow its 16 bits. */
  lemma {:induction false} Recompose(t: nat)
    requires t / 604800 < 0x1_0000
    ensures var p := Decompose(t);
      p.w * 604800 + p.d * 86400 + p.h * 3600 + p.m * 60 + p.s == t
  {
    var p := Decompose(t);
    var a1, a2, a3, a4 := t / 60, t / 3600, t / 86400, t / 604800;
    DivDiv(t, 60, 60);
    DivDiv(t, 3600, 24);
    DivDiv(t, 86400, 7);
    assert t == a1 * 60 + p.s;
    assert a1 == a2 * 60 + p.m;
    assert a2 == a3 * 24 + p.h;
    assert a3 == a4 * 7 + p.d;
    assert p.w == a4;
    Horner(t, a1, a2, a3, a4, p.s, p.m, p.h, p.d);
  }

  lemma Horner(t: int, a1: int, a2: int, a3: int, a4: int, s: int, m: int, h: int, d: int)
    requires t == a1 * 60 + s && a1 == a2 * 60 + m && a2 == a3 * 24 + h && a3 == a4 * 7 + d
    ensures t == a4 * 604800 + d * 86400 + h * 3600 + m * 60 + s
  {
  }

  datatype Unit = Week | Day | Hour | Minute | Second

  /** The two components printed: "%uw%ud", "%ud%uh", "%uh%um" or "%um%us". */
  datatype Shown = Shown(hi: nat, hiUnit: Unit, lo: nat, loUnit: Unit)

  /** The component of `p` counting unit `u`. */
  function Part(p: Parts, u: Unit): nat
  {
    match u
    case Week => p.w
    case Day => p.d
    case Hour => p.h
    case Minute => p.m
    case Second => p.s
  }

  /** Units from the largest (0) to the smallest (4). */
  function Rank(u: Unit): nat
  {
    match u
    case Week => 0
    case Day => 1
    case Hour => 2
    case Minute => 3
    case Second => 4
  }

  /** The pair shown starts at the largest non-zero unit, or at minutes when
      weeks, days and hours are all zero, and continues with the next
      smaller unit. */
  function Choose(p: Parts): (r: Shown)
    ensures r.hiUnit != Second && Rank(r.loUnit) == Rank(r.hiUnit) + 1
    ensures r.hi == Part(p, r.hiUnit) && r.lo == Part(p, r.loUnit)
    ensures forall u: Unit :: Rank(u) < Rank(r.hiUnit) ==> Part(p, u) == 0
    ensures r.hi > 0 || r.hiUnit == Minute
  {
    if p.w > 0 then Shown(p.w, Week, p.d, Day)
    else if p.d > 0 then Shown(p.d, Day, p.h, Hour)
    else if p.h > 0 then Shown(p.h, Hour, p.m, Minute)
    else Shown(p.m, Minute, p.s, Second)
  }

  /** The conditions `Choose` promises single out one pair: any pair that
      meets them is the one chosen. */
  lemma ChooseUnique(p: Parts, r: Shown)
    requires r.hiUnit != Second && Rank(r.loUnit) == Rank(r.hiUnit) + 1
    requires r.hi == Part(p, r.hiUnit) && r.lo == Part(p, r.loUnit)
    requires forall u: Unit :: Rank(u) < Rank(r.hiUnit) ==> Part(p, u) == 0
    requires r.hi > 0 || r.hiUnit == Minute
    ensures r == Choose(p)
  {
  }

  /** The pair printed is always a unit and the next smaller unit, and the
      larger one is non-zero unless the whole time is under a minute. */
  lemma ChooseAdjacent(t: nat)
    ensures var r := Choose(Decompose(t));
      (r.hiUnit, r.loUnit) in {(Week, Day), (Day, Hour), (Hour, Minute), (Minute, Second)}
    ensures var r := Choose(Decompose(t));
      r.hi == 0 ==> r.hiUnit == Minute && t % 604800 < 60
  {
    var p := Decompose(t);
    if p.w == 0 && p.d == 0 && p.h == 0 && p.m == 0 {
      var a1, a2, a3, a4 := t / 60, t / 3600, t / 86400, t / 604800;
      DivDiv(t, 60, 60);
      DivDiv(t, 3600, 24);
      DivDiv(t, 86400, 7);
      Horner(t, a1, a2, a3, a4, p.s, 0, 0, 0);
      DivModUnique(t, 604800, a4, p.s);
    }
  }

  function UnitLetter(u: Unit): char
  {
    match u
    case Week => 'w'
    case Day => 'd'
    case Hour => 'h'
    case Minute => 'm'
    case Second => 's'
  }

  /** `%u`: decimal digits, most significant first, no leading zero. */
  function Decimal(n: nat): (r: string)
    ensures |r| >= 1
    ensures forall i :: 0 <= i < |r| ==> '0' <= r[i] <= '9'
    ensures |r| > 1 ==> r[0] != '0'
  {
    if n < 10 then [DigitChar(n)] else Decimal(n / 10) + [DigitChar(n % 10)]
  }

  function DigitChar(k: nat): (c: char)
    requires k < 10
    ensures '0' <= c <= '9'
  {
    (k + '0' as int) as char
  }

  /** Reads a string of decimal digits back into a number. */
  function ParseDecimal(s: string): nat
    requires forall i :: 0 <= i < |s| ==> '0' <= s[i] <= '9'
  {
    if |s| == 0 then 0
    else ParseDecimal(s[..|s| - 1]) * 10 + (s[|s| - 1] as int - '0' as int)
  }

  lemma {:induction false} DecimalRoundTrip(n: nat)
    ensures ParseDecimal(Decimal(n)) == n
  {
    if n >= 10 {
      var r := Decimal(n);
      assert r[..|r| - 1] == Decimal(n / 10);
      DecimalRoundTrip(n / 10);
    }
  }

  /** `p_log_easytime` */
  function Format(t: nat): string
  {
    var r := Choose(Decompose(t));
    Decimal(r.hi) + [UnitLetter(r.hiUnit)] + Decimal(r.lo) + [UnitLetter(r.loUnit)]
  }

  /** Zero seconds print as "0m0s". */
  lemma FormatZero()
    ensures Format(0) == "0m0s"
  {
    assert Decompose(0) == Parts(0, 0, 0, 0, 0);
  }

  /** The text ends with the smaller unit's letter and reads back as the
      two chosen numbers. */
  lemma FormatReadsBack(t: nat)
    ensures var r := Choose(Decompose(t));
      var f := Format(t);
      var a := Decimal(r.hi);
      f[..|a|] == a && f[|a|] == UnitLetter(r.hiUnit)
      && ParseDecimal(f[|a| + 1..|f| - 1]) == r.lo
      && f[|f| - 1] == UnitLetter(r.loUnit)
  {
    var r := Choose(Decompose(t));
    var a := Decimal(r.hi);
    var f := Format(t);
    assert f[|a| + 1..|f| - 1] == Decimal(r.lo);
    DecimalRoundTrip(r.lo);
  }
}

/** The numerals of strtod and what they are worth, said without reading a text from left to right: a number is the
    longest numeral that the text begins with. */
module Numerals {
  import opened CStrings
  import opened JsonTrees
  import opened Grammar

  /** A sign or none, digits with a point between them or not, and a power of ten or none. */
  datatype Numeral = Numeral(sign: Str, whole: Str, fraction: Option<Str>, power: Option<Power>)

  datatype Power = Power(mark: char, sign: Str, digits: Str)

  predicate IsSign(s: Str) {
    s == "" || s == "+" || s == "-"
  }

  predicate AreDigits(s: Str) {
    forall c | c in s :: '0' <= c <= '9'
  }

  function Decimals(n: Numeral): Str {
    if n.fraction.Some? then n.fraction.value else ""
  }

  predicate Proper(n: Numeral) {
    IsSign(n.sign) && AreDigits(n.whole) && AreDigits(Decimals(n)) && (n.whole != "" || Decimals(n) != "")
    && (n.power.Some? ==> ProperPower(n.power.value))
  }

  predicate ProperPower(p: Power) {
    (p.mark == 'e' || p.mark == 'E') && IsSign(p.sign) && AreDigits(p.digits) && p.digits != ""
  }

  function SpelledPower(power: Option<Power>): Str {
    if power.None? then "" else [power.value.mark] + power.value.sign + power.value.digits
  }

  function SpelledFraction(fraction: Option<Str>): Str {
    if fraction.None? then "" else "." + fraction.value
  }

  function Spelled(n: Numeral): Str {
    n.sign + n.whole + SpelledFraction(n.fraction) + SpelledPower(n.power)
  }

  function PowerOf(power: Option<Power>): int
    requires power.Some? ==> ProperPower(power.value)
  {
    if power.None? then 0
    else if power.value.sign == "-" then 0 - DigitsValue(power.value.digits) else DigitsValue(power.value.digits)
  }

  /** The digits in front of the point, those behind it as parts of ten, and all that times the power of ten. */
  function Value(n: Numeral): real
    requires Proper(n)
  {
    var m := DigitsValue(n.whole) as real + DigitsValue(Decimals(n)) as real / Ten(|Decimals(n)|);
    var scaled := Scaled(m, PowerOf(n.power));
    if n.sign == "-" then -scaled else scaled
  }

  // ---------- arithmetic ----------

  lemma {:induction false} DigitsAppended(a: Str, b: Str)
    requires AreDigits(a) && AreDigits(b)
    ensures AreDigits(a + b) && DigitsValue(a + b) as real == DigitsValue(a) as real * Ten(|b|) + DigitsValue(b) as real
    decreases |b|
  {
    hide DigitsValue, Ten;
    if b == "" {
      assert a + b == a;
      NoDigits();
    } else {
      var front, last := b[..|b| - 1], b[|b| - 1];
      assert forall c | c in front :: c in b;
      assert last in b && (a + b)[..|a + b| - 1] == a + front && (a + b)[|a + b| - 1] == last;
      DigitsAppended(a, front);
      LastDigit(a + b);
      LastDigit(b);
      TenMore(|front|);
      OneDigitMore(DigitsValue(a) as real, Ten(|front|), DigitsValue(front) as real, DigitValue(last) as real);
    }
  }

  lemma NoDigits()
    ensures DigitsValue("") == 0 && Ten(0) == 1.0
  {
  }

  lemma LastDigit(t: Str)
    requires AreDigits(t) && t != ""
    ensures var front, last := t[..|t| - 1], t[|t| - 1];
            AreDigits(front) && IsDigit(last)
            && DigitsValue(t) as real == DigitsValue(front) as real * 10.0 + DigitValue(last) as real
  {
    var front := t[..|t| - 1];
    forall c | c in front ensures '0' <= c <= '9' { assert c in t; }
    assert t[|t| - 1] in t;
  }

  lemma TenMore(n: nat)
    ensures Ten(n + 1) == 10.0 * Ten(n)
  {
  }

  lemma OneDigitMore(x: real, y: real, z: real, d: real)
    ensures (x * y + z) * 10.0 + d == x * (10.0 * y) + (z * 10.0 + d)
  {
  }

  lemma {:induction false} TenSum(a: nat, b: nat)
    ensures Ten(a + b) == Ten(a) * Ten(b)
  {
    if a > 0 {
      TenSum(a - 1, b);
      assert 10.0 * (Ten(a - 1) * Ten(b)) == 10.0 * Ten(a - 1) * Ten(b);
    }
  }

  /** Scaling by fewer powers of ten is the same as dividing first. */
  lemma ScaledLess(m: real, e: int, f: nat)
    ensures Scaled(m, e - f) == Scaled(m / Ten(f), e)
  {
    hide Ten;
    if e >= f {
      TenMultiplied(m, e, f);
    } else if e >= 0 {
      TenDivided(m, e, f);
    } else {
      TenDividedMore(m, -e, f);
    }
  }

  lemma TenMultiplied(m: real, e: nat, f: nat)
    requires e >= f
    ensures m * Ten(e - f) == m / Ten(f) * Ten(e)
  {
    hide Ten;
    TenSum(f, e - f);
    Divided(m, Ten(f), Ten(e - f));
  }

  lemma TenDividedMore(m: real, e: nat, f: nat)
    ensures m / Ten(e + f) == m / Ten(f) / Ten(e)
  {
    hide Ten;
    TenSum(f, e);
    DividedByProduct(m, Ten(f), Ten(e));
  }

  lemma TenDivided(m: real, e: nat, f: nat)
    requires e <= f
    ensures m / Ten(f - e) == m / Ten(f) * Ten(e)
  {
    hide Ten;
    TenSum(e, f - e);
    DividedTwice(m, Ten(e), Ten(f - e));
  }

  lemma Divided(m: real, a: real, b: real)
    requires a > 0.0 && b > 0.0
    ensures m / a * (a * b) == m * b
  {
    assert m / a * (a * b) == m / a * a * b;
  }

  lemma DividedTwice(m: real, a: real, b: real)
    requires a > 0.0 && b > 0.0
    ensures m / (a * b) * a == m / b
  {
    DividedByProduct(m, b, a);
    assert a * b == b * a;
  }

  lemma DividedByProduct(m: real, a: real, b: real)
    requires a > 0.0 && b > 0.0
    ensures m / (a * b) == m / a / b
  {
    var q := m / a / b;
    assert q * b == m / a && q * (a * b) == q * b * a == m;
  }

  lemma SumDivided(x: real, z: real, p: real)
    requires p > 0.0
    ensures (x * p + z) / p == x + z / p
  {
    assert (x + z / p) * p == x * p + z;
  }

  /** strtod reads the digits on both sides of the point as one number, and shifts the point. */
  lemma PointShifted(whole: Str, fraction: Str, e: int)
    requires AreDigits(whole) && AreDigits(fraction)
    ensures AreDigits(whole + fraction)
    ensures Scaled(DigitsValue(whole + fraction) as real, e - |fraction|)
            == Scaled(DigitsValue(whole) as real + DigitsValue(fraction) as real / Ten(|fraction|), e)
  {
    hide Scaled, DigitsValue, Ten;
    DigitsAppended(whole, fraction);
    SumDivided(DigitsValue(whole) as real, DigitsValue(fraction) as real, Ten(|fraction|));
    ScaledLess(DigitsValue(whole + fraction) as real, e, |fraction|);
  }

  // ---------- what strtod reads ----------

  /** The parts that strtod reads of a text. */
  function First(t: Str): (n: Numeral)
    requires Strtod(t).Parsed?
  {
    var i := if t != "" && (t[0] == '+' || t[0] == '-') then 1 else 0;
    var j := DigitsEnd(t, i);
    var k := if j < |t| && t[j] == '.' then DigitsEnd(t, j + 1) else j;
    Numeral(t[..i], t[i..j], if k > j then Some(t[j + 1..k]) else None, FirstPower(t, k))
  }

  function FirstPower(t: Str, k: nat): Option<Power>
    requires k <= |t|
  {
    var e := ReadExponent(t, k).end;
    if e == k then None
    else if t[k + 1] == '+' || t[k + 1] == '-' then Some(Power(t[k], [t[k + 1]], t[k + 2..e]))
    else Some(Power(t[k], "", t[k + 1..e]))
  }

  lemma DigitsOf(t: Str, i: nat)
    requires i <= |t|
    ensures AreDigits(t[i..DigitsEnd(t, i)])
  {
    var j := DigitsEnd(t, i);
    forall c | c in t[i..j] ensures '0' <= c <= '9' {
      var k :| 0 <= k < j - i && t[i..j][k] == c;
      assert IsDigit(t[i + k]);
    }
  }

  lemma PowerRead(t: Str, k: nat)
    requires k <= |t|
    ensures var e, p := ReadExponent(t, k), FirstPower(t, k);
            (p.Some? ==> ProperPower(p.value)) && PowerOf(p) == e.power && t[k..e.end] == SpelledPower(p)
  {
    hide DigitsValue, DigitsEnd;
    var e := ReadExponent(t, k);
    if e.end > k {
      var i := if t[k + 1] == '+' || t[k + 1] == '-' then k + 2 else k + 1;
      DigitsOf(t, i);
    }
  }

  /** Where strtod finds the end of the sign, of the digits, and of the digits behind the point. */
  function Stops(t: Str): (r: (nat, nat, nat))
    ensures r.0 <= r.1 <= r.2 <= |t|
  {
    var i := if t != "" && (t[0] == '+' || t[0] == '-') then 1 else 0;
    var j := DigitsEnd(t, i);
    (i, j, if j < |t| && t[j] == '.' then DigitsEnd(t, j + 1) else j)
  }

  lemma StrtodStops(t: Str)
    ensures var (i, j, k) := Stops(t);
            var fraction := if k > j then t[j + 1..k] else "";
            Strtod(t).Failed? <==> i == j && fraction == ""
  {
  }

  lemma StrtodValue(t: Str)
    requires Strtod(t).Parsed?
    ensures var (i, j, k) := Stops(t);
            var fraction := if k > j then t[j + 1..k] else "";
            var e := ReadExponent(t, k);
            Strtod(t).next == e.end && AreDigits(t[i..j]) && AreDigits(fraction) && AreDigits(t[i..j] + fraction) &&
            var m := Scaled(DigitsValue(t[i..j] + fraction) as real, e.power - |fraction|);
            Strtod(t).value == if t[0] == '-' then -m else m
  {
    hide DigitsValue, Scaled, ReadExponent;
    var (i, j, k) := Stops(t);
    DigitsOf(t, i);
    if k > j { DigitsOf(t, j + 1); }
  }

  lemma FirstParts(t: Str)
    requires Strtod(t).Parsed?
    ensures var (i, j, k) := Stops(t);
            var n, fraction := First(t), if k > j then t[j + 1..k] else "";
            n.sign == t[..i] && n.whole == t[i..j] && Decimals(n) == fraction && n.power == FirstPower(t, k)
            && IsSign(t[..i]) && (t[..i] == "-" <==> t[0] == '-') && SpelledFraction(n.fraction) == t[j..k]
  {
    hide DigitsEnd, FirstPower, Strtod;
    var (i, j, k) := Stops(t);
    if i == 1 { assert t[..1] == [t[0]]; }
    if k > j { assert t[j..k] == "." + t[j + 1..k]; }
  }

  lemma SlicesJoined(t: Str, i: nat, j: nat, k: nat, e: nat)
    requires i <= j <= k <= e <= |t|
    ensures t[..i] + t[i..j] + t[j..k] + t[k..e] == t[..e]
  {
  }

  /** strtod reads a numeral, and what it is worth. */
  lemma FirstRead(t: Str)
    requires Strtod(t).Parsed?
    ensures var n := First(t);
            Proper(n) && Spelled(n) == t[..Strtod(t).next] && Value(n) == Strtod(t).value
  {
    hide First, Strtod, Stops, AreDigits, IsSign, DigitsValue, Scaled, ReadExponent, FirstPower, ProperPower, PowerOf;
    hide Decimals, SpelledPower, SpelledFraction, Ten;
    var (i, j, k) := Stops(t);
    StrtodStops(t);
    StrtodValue(t);
    FirstParts(t);
    PowerRead(t, k);
    var n := First(t);
    PointShifted(n.whole, Decimals(n), PowerOf(n.power));
    SlicesJoined(t, i, j, k, ReadExponent(t, k).end);
  }

  // ---------- nothing longer ----------

  lemma {:induction false} DigitsGo(t: Str, i: nat, m: nat)
    requires i <= m <= |t| && forall k | i <= k < m :: IsDigit(t[k])
    ensures DigitsEnd(t, i) >= m && (m == |t| || !IsDigit(t[m]) ==> DigitsEnd(t, i) == m)
    decreases m - i
  {
    if i < m { DigitsGo(t, i + 1, m); }
  }

  /** Digits in a text: `before`, digits, and something behind them. */
  lemma DigitsStop(before: Str, digits: Str, rest: Str)
    requires AreDigits(digits)
    ensures var e := DigitsEnd(before + digits + rest, |before|);
            e >= |before| + |digits|
            && (rest == "" || !('0' <= rest[0] <= '9') ==> e == |before| + |digits|)
  {
    var t, i, m := before + digits + rest, |before|, |before| + |digits|;
    forall k | i <= k < m ensures IsDigit(t[k]) { assert t[k] == digits[k - i] && digits[k - i] in digits; }
    if rest != "" { assert t[m] == rest[0]; }
    DigitsGo(t, i, m);
  }

  lemma PowerBegins(front: Str, p: Power, rest: Str)
    requires ProperPower(p)
    ensures var t := front + ([p.mark] + p.sign + p.digits) + rest;
            t == front + [p.mark] + p.sign + p.digits + rest && t[|front|] == p.mark && t[|front|..] != ""
            && |t| > |front| + 1 && (if p.sign == "" then IsDigit(t[|front| + 1]) else t[|front| + 1] == p.sign[0])
  {
    assert p.digits[0] in p.digits;
    var t := front + ([p.mark] + p.sign + p.digits) + rest;
    if p.sign == "" { assert t[|front| + 1] == p.digits[0]; }
  }

  lemma PowerGoes(front: Str, p: Power, rest: Str)
    requires ProperPower(p)
    ensures var t := front + SpelledPower(Some(p)) + rest;
            ReadExponent(t, |front|).end >= |front| + |SpelledPower(Some(p))|
            && (rest == "" ==> FirstPower(t, |front|) == Some(p))
  {
    hide DigitsValue, DigitsEnd, AreDigits;
    var t, k := front + SpelledPower(Some(p)) + rest, |front|;
    PowerBegins(front, p, rest);
    DigitsStop(front + [p.mark] + p.sign, p.digits, rest);
    var i := |front + [p.mark] + p.sign|;
    if rest == "" { assert t[i..|t|] == p.digits; }
  }

  function Front(n: Numeral): Str {
    n.sign + n.whole + SpelledFraction(n.fraction)
  }

  lemma SignStops(n: Numeral, rest: Str)
    requires Proper(n)
    ensures Stops(Spelled(n) + rest).0 == |n.sign|
  {
    hide DigitsEnd, ProperPower, SpelledPower;
    var t := Spelled(n) + rest;
    if n.sign != "" {
      assert t[0] == n.sign[0];
    } else if n.whole != "" {
      assert t[0] == n.whole[0] && n.whole[0] in n.whole;
    } else {
      assert n.fraction.Some?;
      assert t[0] == '.';
    }
  }

  lemma WholeStops(n: Numeral, rest: Str)
    requires Proper(n)
    ensures var j, m := DigitsEnd(Spelled(n) + rest, |n.sign|), |n.sign| + |n.whole|;
            j >= m && (n.fraction.Some? || n.power.Some? || rest == "" ==> j == m)
    ensures var t, m := Spelled(n) + rest, |n.sign| + |n.whole|;
            if n.fraction.Some? then m < |t| && t[m] == '.'
            else n.power.Some? ==> m < |t| && t[m] == n.power.value.mark
  {
    hide DigitsEnd;
    var behind := SpelledFraction(n.fraction) + SpelledPower(n.power) + rest;
    assert Spelled(n) + rest == n.sign + n.whole + behind;
    DigitsStop(n.sign, n.whole, behind);
    if n.fraction.Some? {
      assert behind[0] == '.';
    } else if n.power.Some? {
      assert behind[0] == n.power.value.mark;
    }
  }

  lemma FractionStops(n: Numeral, rest: Str)
    requires Proper(n)
    ensures var k := Stops(Spelled(n) + rest).2;
            k >= |Front(n)| && (n.power.Some? || rest == "" ==> k == |Front(n)|)
  {
    hide DigitsEnd, AreDigits, Spelled;
    SignStops(n, rest);
    WholeStops(n, rest);
    SpelledParts(n, rest);
    if n.fraction.Some? {
      var behind := SpelledPower(n.power) + rest;
      SpelledBehind(n, rest);
      DigitsStop(n.sign + n.whole + ".", n.fraction.value, behind);
      if n.power.Some? { assert behind[0] == n.power.value.mark; }
    }
  }

  lemma SpelledBehind(n: Numeral, rest: Str)
    requires n.fraction.Some?
    ensures Spelled(n) + rest == n.sign + n.whole + "." + n.fraction.value + (SpelledPower(n.power) + rest)
  {
  }

  lemma SpelledParts(n: Numeral, rest: Str)
    ensures Spelled(n) + rest == Front(n) + SpelledPower(n.power) + rest
    ensures |Front(n)| == |n.sign| + |n.whole| + (if n.fraction.Some? then 1 + |n.fraction.value| else 0)
    ensures n.power.None? ==> SpelledPower(n.power) == ""
  {
  }

  lemma NoPower(t: Str)
    ensures FirstPower(t, |t|) == None
  {
  }

  /** strtod reads a numeral whole, and perhaps more. */
  lemma NotLonger(n: Numeral, rest: Str)
    requires Proper(n)
    ensures var t := Spelled(n) + rest; Strtod(t).Parsed? && |Spelled(n)| <= Strtod(t).next
  {
    hide Spelled, Front, Strtod, ProperPower, AreDigits, IsSign, DigitsEnd, SpelledPower, SpelledFraction, FirstPower;
    hide ReadExponent;
    var t := Spelled(n) + rest;
    StrtodStops(t);
    SignStops(n, rest);
    WholeStops(n, rest);
    FractionStops(n, rest);
    SpelledParts(n, rest);
    SpelledParts(n, "");
    StrtodValue(t);
    if n.power.Some? { PowerGoes(Front(n), n.power.value, rest); }
  }

  /** With nothing behind it, strtod finds its parts. */
  lemma FirstOfSpelled(n: Numeral)
    requires Proper(n)
    ensures Strtod(Spelled(n)).Parsed? && First(Spelled(n)) == n
  {
    hide Strtod, ProperPower, AreDigits, IsSign, DigitsEnd, SpelledPower, FirstPower, ReadExponent;
    var t := Spelled(n);
    assert t + "" == t;
    NotLonger(n, "");
    SignStops(n, "");
    WholeStops(n, "");
    FractionStops(n, "");
    SpelledParts(n, "");
    if n.power.Some? { PowerGoes(Front(n), n.power.value, ""); } else { NoPower(t); }
    assert t[..|n.sign|] == n.sign && t[|n.sign|..|n.sign| + |n.whole|] == n.whole;
    if n.fraction.Some? { assert t[|n.sign| + |n.whole| + 1..|Front(n)|] == n.fraction.value; }
  }

  // ---------- numbers in a text ----------

  /** The longest numeral that a text begins with, among those of at most `room` characters. */
  ghost predicate Longest(n: Numeral, t: Str, room: nat) {
    Proper(n) && Spelled(n) <= t && |Spelled(n)| <= room
    && forall m | Proper(m) && Spelled(m) <= t && |Spelled(m)| <= room :: |Spelled(m)| <= |Spelled(n)|
  }

  lemma SameSpelling(a: Numeral, b: Numeral)
    requires Proper(a) && Proper(b) && Spelled(a) == Spelled(b)
    ensures a == b
  {
    hide First, Spelled;
    FirstOfSpelled(a);
    FirstOfSpelled(b);
  }

  /** There is at most one. */
  lemma LongestIsUnique(a: Numeral, b: Numeral, t: Str, room: nat)
    requires Longest(a, t, room) && Longest(b, t, room)
    ensures a == b
  {
    hide Spelled, Proper;
    assert Spelled(a) == t[..|Spelled(a)|] && Spelled(b) == t[..|Spelled(b)|];
    SameSpelling(a, b);
  }

  lemma {:induction false} SpelledInNumber(s: Str, o: nat, t: Str, room: nat)
    requires o <= |s| && t <= s[o..] && |t| <= room && forall c | c in t :: IsNumberChar(c)
    ensures t <= NumberText(s, o, room)
    decreases |t|
  {
    if t != "" {
      assert t[0] in t && s[o] == t[0] && s[o..][1..] == s[o + 1..];
      forall c | c in t[1..] ensures IsNumberChar(c) { assert c in t; }
      SpelledInNumber(s, o + 1, t[1..], room - 1);
    }
  }

  lemma NumeralChars(n: Numeral)
    requires Proper(n)
    ensures forall c | c in Spelled(n) :: IsNumberChar(c)
  {
  }

  /** A number is the longest numeral among the first sixty-three characters, and is worth what that is worth. */
  lemma NumbersAreNumerals(s: Str, o: nat)
    requires Window(s) && o < |s|
    ensures match ParseNumber(s, o)
            case Parsed(Number(d), e) =>
              exists n :: Longest(n, s[o..], 63) && d == Value(n) && e == o + |Spelled(n)|
            case _ => forall n | Proper(n) && |Spelled(n)| <= 63 :: !(Spelled(n) <= s[o..])
  {
    hide Strtod, NumberText, Spelled, Proper, Value;
    var t := NumberText(s, o, 63);
    forall n | Proper(n) && Spelled(n) <= s[o..] && |Spelled(n)| <= 63
      ensures Strtod(t).Parsed? && |Spelled(n)| <= Strtod(t).next
    {
      NumeralChars(n);
      SpelledInNumber(s, o, Spelled(n), 63);
      assert t == Spelled(n) + t[|Spelled(n)|..];
      NotLonger(n, t[|Spelled(n)|..]);
    }
    if Strtod(t).Parsed? {
      FirstRead(t);
      assert Longest(First(t), s[o..], 63) by { hide First; }
    }
  }
}

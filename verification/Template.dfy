/** Log file names: a template with strftime-like patterns, filled in from a time. */
module Template {

  datatype Time = Time(year: int, month: nat, day: nat, hour: nat, minute: nat, second: nat)

  // Decimal numbers

  function Digit(d: nat): (c: char)
    requires d < 10
    ensures '0' <= c <= '9' && c as int == '0' as int + d
  {
    "0123456789"[d]
  }

  function Digits(n: nat): (s: string)
    ensures s != "" && forall c :: c in s ==> '0' <= c <= '9'
  {
    if n < 10 then [Digit(n)] else Digits(n / 10) + [Digit(n % 10)]
  }

  function ZeroPad(s: string, width: int): (r: string)
    ensures forall c :: c in r ==> c in s || c == '0'
    ensures |r| >= |s|
    decreases width - |s|
  {
    if |s| >= width then s else ZeroPad("0" + s, width)
  }

  /** fmt's `%0<width>d`: a sign counts towards the width. */
  function FormatInt(n: int, width: nat): string {
    if n < 0 then "-" + ZeroPad(Digits(-n), width as int - 1) else ZeroPad(Digits(n), width)
  }

  /** Go's remainder has the sign of the dividend. */
  function YearOfCentury(year: int): (r: int)
    ensures -100 < r < 100 && (year - r) % 100 == 0 && (year > 0 ==> r >= 0) && (year < 0 ==> r <= 0)
  {
    if year < 0 then -(-year % 100) else year % 100
  }

  // Replacement

  /** strings.Replace of every `%c` in `p`. */
  function ReplaceAll(p: string, c: char, x: string): string {
    if |p| < 2 then p
    else if p[0] == '%' && p[1] == c then x + ReplaceAll(p[2..], c, x)
    else [p[0]] + ReplaceAll(p[1..], c, x)
  }

  function TimeToPath(p: string, t: Time): string {
    var p := ReplaceAll(p, 'Y', FormatInt(t.year, 4));
    var p := ReplaceAll(p, 'y', FormatInt(YearOfCentury(t.year), 2));
    var p := ReplaceAll(p, 'm', FormatInt(t.month, 2));
    var p := ReplaceAll(p, 'd', FormatInt(t.day, 2));
    var p := ReplaceAll(p, 'H', FormatInt(t.hour, 2));
    var p := ReplaceAll(p, 'M', FormatInt(t.minute, 2));
    ReplaceAll(p, 'S', FormatInt(t.second, 2))
  }

  /** One pass from left to right that replaces every pattern of `m` where it stands. */
  function Substitute(p: string, m: map<char, string>): string {
    if |p| < 2 then p
    else if p[0] == '%' && p[1] in m then m[p[1]] + Substitute(p[2..], m)
    else [p[0]] + Substitute(p[1..], m)
  }

  function Patterns(t: Time): map<char, string> {
    map['Y' := FormatInt(t.year, 4), 'y' := FormatInt(YearOfCentury(t.year), 2),
        'm' := FormatInt(t.month, 2), 'd' := FormatInt(t.day, 2), 'H' := FormatInt(t.hour, 2),
        'M' := FormatInt(t.minute, 2), 'S' := FormatInt(t.second, 2)]
  }

  /** A text that neither contains nor completes a pattern. */
  predicate Plain(x: string) {
    x != "" && forall c :: c in x ==> c == '-' || '0' <= c <= '9'
  }

  predicate Letter(c: char) {
    'A' <= c <= 'Z' || 'a' <= c <= 'z'
  }

  lemma FormatIsPlain(n: int, width: nat)
    ensures Plain(FormatInt(n, width))
  {
  }

  lemma {:induction false} ReplaceSkips(v: string, q: string, c: char, x: string)
    requires '%' !in v
    ensures ReplaceAll(v + q, c, x) == v + ReplaceAll(q, c, x)
  {
    if v == "" {
      assert v + q == q;
    } else {
      var s := v + q;
      assert v[0] in v && s[0] == v[0];
      assert s[1..] == v[1..] + q;
      ReplaceSkips(v[1..], q, c, x);
      if |s| < 2 {
        assert v == s && q == "";
      } else {
        assert ReplaceAll(s, c, x) == [v[0]] + ReplaceAll(s[1..], c, x);
      }
    }
  }

  /** After a lone `%`, the text of a substitution never starts with a pattern letter that was not there. */
  lemma SubstituteStart(p: string, m: map<char, string>, c: char)
    requires p != "" && Letter(c)
    requires forall k :: k in m ==> Plain(m[k])
    ensures var s := Substitute(p, m); s != "" && (s[0] == c ==> p[0] == c)
  {
    if |p| >= 2 && p[0] == '%' && p[1] in m {
      var v := m[p[1]];
      assert v[0] in v;
    }
  }

  lemma {:induction false} ReplaceAfterSubstitute(p: string, m: map<char, string>, c: char, x: string)
    requires c !in m && Letter(c) && forall k :: k in m ==> Plain(m[k])
    ensures ReplaceAll(Substitute(p, m), c, x) == Substitute(p, m[c := x])
  {
    if |p| < 2 {
    } else if p[0] == '%' && p[1] in m {
      ReplaceAfterSubstitute(p[2..], m, c, x);
      ReplaceSkips(m[p[1]], Substitute(p[2..], m), c, x);
    } else {
      ReplaceAfterSubstitute(p[1..], m, c, x);
      var q := Substitute(p[1..], m);
      SubstituteStart(p[1..], m, c);
      assert ([p[0]] + q)[1..] == q;
      if p[0] == '%' && p[1] == c {
        ReplaceAfterSubstitute(p[2..], m, c, x);
        assert q == [c] + Substitute(p[2..], m);
        assert ([p[0]] + q)[2..] == Substitute(p[2..], m);
      }
    }
  }

  lemma {:induction false} SubstituteNothing(p: string)
    ensures Substitute(p, map[]) == p
  {
    if |p| >= 2 {
      SubstituteNothing(p[1..]);
      assert p == [p[0]] + p[1..];
    }
  }

  /** The seven replacements one after another are the one simultaneous substitution, for every template. */
  lemma TimeToPathIsSimultaneous(p: string, t: Time)
    ensures TimeToPath(p, t) == Substitute(p, Patterns(t))
  {
    FormatIsPlain(t.year, 4);
    FormatIsPlain(YearOfCentury(t.year), 2);
    FormatIsPlain(t.month, 2);
    FormatIsPlain(t.day, 2);
    FormatIsPlain(t.hour, 2);
    FormatIsPlain(t.minute, 2);
    FormatIsPlain(t.second, 2);
    hide FormatInt, Plain;
    var m1 := map['Y' := FormatInt(t.year, 4)];
    var m2 := m1['y' := FormatInt(YearOfCentury(t.year), 2)];
    var m3 := m2['m' := FormatInt(t.month, 2)];
    var m4 := m3['d' := FormatInt(t.day, 2)];
    var m5 := m4['H' := FormatInt(t.hour, 2)];
    var m6 := m5['M' := FormatInt(t.minute, 2)];
    SubstituteNothing(p);
    ReplaceAfterSubstitute(p, map[], 'Y', FormatInt(t.year, 4));
    ReplaceAfterSubstitute(p, m1, 'y', FormatInt(YearOfCentury(t.year), 2));
    ReplaceAfterSubstitute(p, m2, 'm', FormatInt(t.month, 2));
    ReplaceAfterSubstitute(p, m3, 'd', FormatInt(t.day, 2));
    ReplaceAfterSubstitute(p, m4, 'H', FormatInt(t.hour, 2));
    ReplaceAfterSubstitute(p, m5, 'M', FormatInt(t.minute, 2));
    ReplaceAfterSubstitute(p, m6, 'S', FormatInt(t.second, 2));
    assert m6['S' := FormatInt(t.second, 2)] == Patterns(t);
  }

  // Order of file names

  predicate LexLess(a: string, b: string) {
    if a == "" then b != ""
    else if b == "" then false
    else a[0] < b[0] || (a[0] == b[0] && LexLess(a[1..], b[1..]))
  }

  function Pow10(w: nat): (p: nat)
    ensures p > 0
  {
    if w == 0 then 1 else 10 * Pow10(w - 1)
  }

  /** The last `w` decimal digits of `n`. */
  function Fixed(n: nat, w: nat): (s: string)
    ensures |s| == w
  {
    if w == 0 then "" else Fixed(n / 10, w - 1) + [Digit(n % 10)]
  }

  lemma {:induction false} PadIsFixed(n: nat, w: nat)
    requires w > 0 && n < Pow10(w)
    ensures ZeroPad(Digits(n), w) == Fixed(n, w)
  {
    if w == 1 {
      assert Fixed(n, 1) == "" + [Digit(n)];
    } else if n < 10 {
      PadIsFixed(0, w - 1);
      PadAppend("", n, w);
      assert "" + [Digit(n)] == [Digit(n)] == Digits(n);
      assert Fixed(n, w) == Fixed(0, w - 1) + [Digit(n)];
      PadZeros(w - 1);
    } else {
      PadIsFixed(n / 10, w - 1);
      PadAppend(Digits(n / 10), n % 10, w);
    }
  }

  lemma {:induction false} PadAppend(s: string, d: nat, w: nat)
    requires d < 10 && w > 0
    ensures ZeroPad(s + [Digit(d)], w) == ZeroPad(s, w - 1) + [Digit(d)]
    decreases w - |s|
  {
    if |s| + 1 < w {
      PadAppend("0" + s, d, w);
      assert "0" + (s + [Digit(d)]) == ("0" + s) + [Digit(d)];
    }
  }

  lemma PadZeros(w: nat)
    requires w > 0
    ensures ZeroPad("", w) == ZeroPad(Digits(0), w)
  {
    assert "0" + "" == "0" == Digits(0);
  }

  lemma {:induction false} FixedConcat(a: nat, b: nat, v: nat, w: nat)
    requires b < Pow10(w)
    ensures Fixed(a, v) + Fixed(b, w) == Fixed(a * Pow10(w) + b, v + w)
  {
    if w == 0 {
      assert Fixed(a, v) + "" == Fixed(a, v);
    } else {
      FixedConcat(a, b / 10, v, w - 1);
      Shift(a, b, Pow10(w - 1));
      assert v + w - 1 == v + (w - 1);
      assert Fixed(a, v) + (Fixed(b / 10, w - 1) + [Digit(b % 10)])
          == (Fixed(a, v) + Fixed(b / 10, w - 1)) + [Digit(b % 10)];
    }
  }

  lemma Shift(a: nat, b: nat, p: nat)
    ensures (a * (10 * p) + b) / 10 == a * p + b / 10 && (a * (10 * p) + b) % 10 == b % 10
    ensures a * (10 * p) >= 0 && a * p >= 0
  {
    var high := a * p;
    assert a * (10 * p) == 10 * high;
    assert high >= 0;
    assert (10 * high + b) / 10 == high + b / 10 && (10 * high + b) % 10 == b % 10;
  }

  lemma {:induction false} LexLessLast(a: string, b: string, x: char, y: char)
    requires |a| == |b|
    ensures LexLess(a + [x], b + [y]) <==> LexLess(a, b) || (a == b && x < y)
  {
    if a != "" {
      LexLessLast(a[1..], b[1..], x, y);
      assert (a + [x])[1..] == a[1..] + [x] && (b + [y])[1..] == b[1..] + [y];
      assert a == [a[0]] + a[1..] && b == [b[0]] + b[1..];
    }
  }

  lemma {:induction false} LexLessAround(pre: string, a: string, b: string, suf: string)
    requires |a| == |b|
    ensures LexLess(pre + a + suf, pre + b + suf) <==> LexLess(a, b)
  {
    if pre != "" {
      LexLessAround(pre[1..], a, b, suf);
      assert (pre + a + suf)[1..] == pre[1..] + a + suf && (pre + b + suf)[1..] == pre[1..] + b + suf;
    } else if a != "" {
      LexLessAround("", a[1..], b[1..], suf);
      assert "" + a + suf == a + suf && "" + b + suf == b + suf;
      assert (a + suf)[1..] == "" + a[1..] + suf && (b + suf)[1..] == "" + b[1..] + suf;
    } else {
      LexIrreflexive(pre + a + suf);
    }
  }

  lemma {:induction false} LexIrreflexive(s: string)
    ensures !LexLess(s, s)
  {
    if s != "" {
      LexIrreflexive(s[1..]);
    }
  }

  lemma {:induction false} LexTransitive(a: string, b: string, c: string)
    requires LexLess(a, b) && LexLess(b, c)
    ensures LexLess(a, c)
  {
    if a != "" && a[0] == b[0] == c[0] {
      LexTransitive(a[1..], b[1..], c[1..]);
    }
  }

  lemma {:induction false} FixedOrder(a: nat, b: nat, w: nat)
    requires a < Pow10(w) && b < Pow10(w)
    ensures LexLess(Fixed(a, w), Fixed(b, w)) <==> a < b
    ensures Fixed(a, w) == Fixed(b, w) <==> a == b
  {
    if w > 0 {
      FixedOrder(a / 10, b / 10, w - 1);
      var s, t := Fixed(a / 10, w - 1), Fixed(b / 10, w - 1);
      LexLessLast(s, t, Digit(a % 10), Digit(b % 10));
      assert (s + [Digit(a % 10)])[..w - 1] == s && (t + [Digit(b % 10)])[..w - 1] == t;
      assert (s + [Digit(a % 10)])[w - 1] == Digit(a % 10) && (t + [Digit(b % 10)])[w - 1] == Digit(b % 10);
    }
  }

  predicate Calendar(t: Time) {
    0 <= t.year < 10000 && t.month < 100 && t.day < 100 && t.hour < 100
  }

  /** The hour a time falls in, as one number. */
  function HourKey(t: Time): nat
    requires Calendar(t)
  {
    ((t.year * 100 + t.month) * 100 + t.day) * 100 + t.hour
  }

  const HOURLY: string := "%Y%m%d%H"

  lemma {:induction false} SubstituteSkips(v: string, q: string, m: map<char, string>)
    requires '%' !in v
    ensures Substitute(v + q, m) == v + Substitute(q, m)
  {
    if v == "" {
      assert v + q == q;
    } else {
      var s := v + q;
      assert v[0] in v && s[0] == v[0] && s[1..] == v[1..] + q;
      SubstituteSkips(v[1..], q, m);
      if |s| < 2 {
        assert v == s && q == "";
      } else {
        assert Substitute(s, m) == [v[0]] + Substitute(s[1..], m);
      }
    }
  }

  lemma SubstituteHead(c: char, q: string, m: map<char, string>)
    requires c in m
    ensures Substitute(['%', c] + q, m) == m[c] + Substitute(q, m)
  {
    assert (['%', c] + q)[2..] == q;
  }

  lemma SubstituteEmpty(m: map<char, string>)
    ensures Substitute("", m) == ""
  {
  }

  lemma HourlySubstitute(pre: string, suf: string, m: map<char, string>)
    requires '%' !in pre && '%' !in suf && 'Y' in m && 'm' in m && 'd' in m && 'H' in m
    ensures Substitute(pre + (HOURLY + suf), m) == pre + (m['Y'] + (m['m'] + (m['d'] + (m['H'] + suf))))
  {
    hide Substitute;
    SubstituteSkips(pre, HOURLY + suf, m);
    SubstituteEmpty(m);
    var h := ['%', 'H'] + suf;
    var d := ['%', 'd'] + h;
    var mo := ['%', 'm'] + d;
    assert HOURLY + suf == ['%', 'Y'] + mo;
    SubstituteHead('Y', mo, m);
    SubstituteHead('m', d, m);
    SubstituteHead('d', h, m);
    SubstituteHead('H', suf, m);
    SubstituteSkips(suf, "", m);
    assert suf + "" == suf;
  }

  lemma AppendTwoDigits(a: nat, b: nat, v: nat)
    requires b < 100
    ensures Fixed(a, v) + FormatInt(b, 2) == Fixed(a * 100 + b, v + 2)
  {
    Hundred();
    hide Fixed, ZeroPad, Digits, Pow10;
    PadIsFixed(b, 2);
    FixedConcat(a, b, v, 2);
  }

  lemma Hundred()
    ensures Pow10(2) == 100
  {
    assert Pow10(1) == 10;
  }

  lemma YearDigits(year: nat)
    requires year < 10000
    ensures FormatInt(year, 4) == Fixed(year, 4)
  {
    assert Pow10(2) == 100 && Pow10(4) == 100 * Pow10(2);
    PadIsFixed(year, 4);
  }

  /** The decimal digit of `n` that counts `unit`s. */
  predicate DigitAt(c: char, n: nat, unit: nat)
    requires unit > 0
  {
    c as int == '0' as int + n / unit % 10
  }

  predicate TwoDigits(s: string, n: nat) {
    |s| == 2 && DigitAt(s[0], n, 10) && DigitAt(s[1], n, 1)
  }

  predicate FourDigits(s: string, n: nat) {
    |s| == 4 && DigitAt(s[0], n, 1000) && DigitAt(s[1], n, 100) && DigitAt(s[2], n, 10) && DigitAt(s[3], n, 1)
  }

  lemma FormatTwoDigits(n: nat)
    requires n < 100
    ensures TwoDigits(FormatInt(n, 2), n)
  {
    Hundred();
    PadIsFixed(n, 2);
    hide ZeroPad, Digits, Pow10;
    assert Fixed(n / 10 / 10, 0) == "";
    assert Fixed(n / 10, 1) == [Digit(n / 10 % 10)];
  }

  lemma FormatFourDigits(n: nat)
    requires n < 10000
    ensures FourDigits(FormatInt(n, 4), n)
  {
    YearDigits(n);
    hide FormatInt;
    FixedDigits(n / 10 / 10, 0);
    FixedDigits(n, 2);
    assert n / 10 / 10 == n / 100 && n / 10 / 10 / 10 == n / 1000;
    hide Fixed;
  }

  lemma FixedDigits(n: nat, w: nat)
    ensures Fixed(n, w + 2) == Fixed(n / 10 / 10, w) + [Digit(n / 10 % 10), Digit(n % 10)]
  {
    assert Fixed(n / 10, w + 1) == Fixed(n / 10 / 10, w) + [Digit(n / 10 % 10)];
  }

  /** The two or four digits that stand in a name for each part of a time. */
  lemma PatternsAre(t: Time)
    requires Calendar(t) && t.minute < 100 && t.second < 100
    ensures
      var m := Patterns(t);
      && m.Keys == {'Y', 'y', 'm', 'd', 'H', 'M', 'S'}
      && FourDigits(m['Y'], t.year) && TwoDigits(m['y'], t.year % 100)
      && TwoDigits(m['m'], t.month) && TwoDigits(m['d'], t.day)
      && TwoDigits(m['H'], t.hour) && TwoDigits(m['M'], t.minute) && TwoDigits(m['S'], t.second)
  {
    FormatFourDigits(t.year);
    FormatTwoDigits(YearOfCentury(t.year));
    FormatTwoDigits(t.month);
    FormatTwoDigits(t.day);
    FormatTwoDigits(t.hour);
    FormatTwoDigits(t.minute);
    FormatTwoDigits(t.second);
    hide FormatInt, TwoDigits, FourDigits;
  }

  lemma HourlyDigits(t: Time)
    requires Calendar(t)
    ensures FormatInt(t.year, 4) + (FormatInt(t.month, 2) + (FormatInt(t.day, 2) + FormatInt(t.hour, 2)))
         == Fixed(HourKey(t), 10)
  {
    hide Fixed, FormatInt;
    YearDigits(t.year);
    AppendTwoDigits(t.year, t.month, 4);
    AppendTwoDigits(t.year * 100 + t.month, t.day, 6);
    AppendTwoDigits((t.year * 100 + t.month) * 100 + t.day, t.hour, 8);
    var y, mo, d, h := FormatInt(t.year, 4), FormatInt(t.month, 2), FormatInt(t.day, 2), FormatInt(t.hour, 2);
    assert y + (mo + (d + h)) == ((y + mo) + d) + h;
  }

  lemma HourlyPath(pre: string, suf: string, t: Time)
    requires '%' !in pre && '%' !in suf && Calendar(t)
    ensures TimeToPath(pre + (HOURLY + suf), t) == pre + Fixed(HourKey(t), 10) + suf
  {
    hide TimeToPath, FormatInt, Fixed, HourKey, Substitute;
    TimeToPathIsSimultaneous(pre + (HOURLY + suf), t);
    HourlySubstitute(pre, suf, Patterns(t));
    HourlyDigits(t);
    var y, mo, d, h := FormatInt(t.year, 4), FormatInt(t.month, 2), FormatInt(t.day, 2), FormatInt(t.hour, 2);
    assert pre + (y + (mo + (d + (h + suf)))) == pre + (y + (mo + (d + h))) + suf;
  }

  /** For the hourly template, file names sort as the hours do, and two times share a file exactly within an hour. */
  lemma HourlyPathsSortByTime(pre: string, suf: string, t: Time, u: Time)
    requires '%' !in pre && '%' !in suf && Calendar(t) && Calendar(u)
    ensures
      var (p, q) := (TimeToPath(pre + (HOURLY + suf), t), TimeToPath(pre + (HOURLY + suf), u));
      && (LexLess(p, q) <==> HourKey(t) < HourKey(u))
      && (p == q <==> HourKey(t) == HourKey(u))
  {
    HourlyPath(pre, suf, t);
    HourlyPath(pre, suf, u);
    hide TimeToPath, HourKey;
    var a, b := Fixed(HourKey(t), 10), Fixed(HourKey(u), 10);
    KeyBound(t);
    KeyBound(u);
    FixedOrder(HourKey(t), HourKey(u), 10);
    LexLessAround(pre, a, b, suf);
    assert (pre + a + suf)[|pre|..|pre| + 10] == a && (pre + b + suf)[|pre|..|pre| + 10] == b;
  }

  lemma KeyBound(t: Time)
    requires Calendar(t)
    ensures HourKey(t) < Pow10(10)
  {
    assert Pow10(2) == 100 && Pow10(4) == 100 * Pow10(2) && Pow10(6) == 100 * Pow10(4);
    assert Pow10(8) == 100 * Pow10(6) && Pow10(10) == 100 * Pow10(8);
  }

  /** HourKey orders times by year, then month, then day, then hour. */
  lemma HourKeyIsLexicographic(t: Time, u: Time)
    requires Calendar(t) && Calendar(u)
    ensures HourKey(t) < HourKey(u) <==>
            || t.year < u.year
            || (t.year == u.year
                && (t.month < u.month
                    || (t.month == u.month && (t.day < u.day || (t.day == u.day && t.hour < u.hour)))))
  {
  }
}

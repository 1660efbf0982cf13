/** Brazilian number formatting, `fmt_int_br` and `fmt_float2_br`, defined
    identically in doc.py and app.py: Python's en-US rendering with `,` thousands
    separators, then `,` and `.` exchanged. Integers are formatted exactly;
    two-decimal amounts are given in hundredths. */
module Format {
  import opened Text

  /** Python's `,` grouping of a digit string: a comma between groups of three
      digits counted from the right. */
  function Group(d: string): (r: string)
    ensures |r| == |d| + (if |d| == 0 then 0 else (|d| - 1) / 3)
  {
    if |d| <= 3 then d else Group(d[..|d| - 3]) + "," + d[|d| - 3..]
  }

  /** `str.replace` of one character by another. */
  function Replace(s: string, a: char, b: char): (r: string)
    ensures |r| == |s|
    ensures forall i :: 0 <= i < |s| ==> r[i] == (if s[i] == a then b else s[i])
  {
    seq(|s|, i requires 0 <= i < |s| => if s[i] == a then b else s[i])
  }

  /** `str.replace(a, "")`. */
  function Remove(s: string, a: char): (r: string)
    ensures a !in r
  {
    if s == [] then [] else (if s[0] == a then [] else [s[0]]) + Remove(s[1..], a)
  }

  lemma {:induction false} RemoveConcat(s: string, t: string, a: char)
    ensures Remove(s + t, a) == Remove(s, a) + Remove(t, a)
  {
    if s == [] {
      assert s + t == t;
    } else {
      assert (s + t)[1..] == s[1..] + t;
      RemoveConcat(s[1..], t, a);
    }
  }

  /** A string with no `a` is left alone by removing `a`. */
  lemma {:induction false} RemoveAbsent(s: string, a: char)
    requires a !in s
    ensures Remove(s, a) == s
  {
    if s != [] {
      RemoveAbsent(s[1..], a);
    }
  }

  /** Replacing `a` by a character `b` the string does not hold and then removing
      `b` is removing `a`. */
  lemma {:induction false} RemoveReplaced(s: string, a: char, b: char)
    requires b !in s
    ensures Remove(Replace(s, a, b), b) == Remove(s, a)
  {
    if s != [] {
      assert Replace(s, a, b)[1..] == Replace(s[1..], a, b);
      RemoveReplaced(s[1..], a, b);
    }
  }

  predicate AllDigits(s: string)
  {
    forall i :: 0 <= i < |s| ==> IsDigit(s[i])
  }

  lemma GroupSplit(d: string)
    requires |d| > 3
    ensures Group(d) == Group(d[..|d| - 3]) + "," + d[|d| - 3..]
    ensures d == d[..|d| - 3] + d[|d| - 3..]
  {
  }

  /** The grouping keeps every digit, with only commas added. */
  lemma {:induction false} GroupChars(d: string)
    requires AllDigits(d)
    ensures forall i :: 0 <= i < |Group(d)| ==> Group(d)[i] == ',' || IsDigit(Group(d)[i])
  {
    if |d| > 3 {
      var p, t := d[..|d| - 3], d[|d| - 3..];
      GroupChars(p);
      assert Group(d) == Group(p) + "," + t;
    }
  }

  /** The separator `sep` stands exactly at the positions 4, 8, 12, … counted
      from the end, and nowhere else. */
  predicate EveryFourth(r: string, sep: char)
  {
    forall i :: 0 <= i < |r| ==> (r[i] == sep <==> (|r| - i) % 4 == 0)
  }

  /** The grouping puts a comma exactly at the positions 4, 8, 12, … counted from
      the end of the string. */
  lemma {:induction false} GroupSeparators(d: string)
    requires AllDigits(d)
    ensures EveryFourth(Group(d), ',')
  {
    if |d| <= 3 {
      assert forall i :: 0 <= i < |d| ==> IsDigit(d[i]);
    } else {
      var p, t := d[..|d| - 3], d[|d| - 3..];
      GroupSplit(d);
      GroupSeparators(p);
      assert AllDigits(t) by {
        assert forall i :: 0 <= i < |t| ==> t[i] == d[|d| - 3 + i];
      }
      CommasStep(Group(p), t);
    }
  }

  /** Appending a comma and a group of three digits keeps the commas every fourth
      position from the end. */
  lemma CommasStep(g: string, t: string)
    requires EveryFourth(g, ',') && |t| == 3 && AllDigits(t)
    ensures EveryFourth(g + "," + t, ',')
  {
    var r := g + "," + t;
    forall i | 0 <= i < |r|
      ensures r[i] == ',' <==> (|r| - i) % 4 == 0
    {
      if i < |g| {
        assert r[i] == g[i];
        ShiftByFour(|g| - i);
      } else if i > |g| {
        assert r[i] == t[i - |g| - 1];
        assert IsDigit(r[i]);
      }
    }
  }

  lemma ShiftByFour(k: int)
    ensures (k + 4) % 4 == 0 <==> k % 4 == 0
  {
  }

  /** Removing the commas of the grouping gives back the digit string. */
  lemma {:induction false} GroupRemove(d: string)
    requires AllDigits(d)
    ensures Remove(Group(d), ',') == d
  {
    if |d| <= 3 {
      assert forall i :: 0 <= i < |d| ==> IsDigit(d[i]);
      RemoveAbsent(d, ',');
    } else {
      var p, t := d[..|d| - 3], d[|d| - 3..];
      GroupSplit(d);
      GroupRemove(p);
      var g := Group(p);
      assert forall i :: 0 <= i < |t| ==> IsDigit(t[i]);
      RemoveAbsent(t, ',');
      RemoveConcat(g + ",", t, ',');
      RemoveConcat(g, ",", ',');
      var comma := Remove(",", ',');
      assert comma == [] by {
        assert ","[1..] == [];
      }
      var rg := Remove(g, ',');
      assert rg == p;
      assert rg + comma == p;
      calc {
        Remove(Group(d), ',');
        Remove(g + ",", ',') + Remove(t, ',');
        (rg + comma) + t;
        p + t;
      }
    }
  }

  /** `f"{n:,}"` for an integer. */
  function Thousands(n: int): string
  {
    if n < 0 then "-" + Group(NatToString(-n)) else Group(NatToString(n))
  }

  /** `fmt_int_br` on an integer value. */
  function FmtIntBr(n: int): string
  {
    Replace(Thousands(n), ',', '.')
  }

  /** Deleting the dots of `fmt_int_br(n)` gives the plain decimal rendering of `n`. */
  lemma FmtIntBrDigits(n: int)
    ensures Remove(FmtIntBr(n), '.') == IntToString(n)
  {
    var m := if n < 0 then -n else n;
    var d := NatToString(m);
    GroupChars(d);
    GroupRemove(d);
    var g := Group(d);
    assert '.' !in g;
    RemoveReplaced(g, ',', '.');
    if n < 0 {
      assert Thousands(n) == "-" + g;
      assert FmtIntBr(n) == "-" + Replace(g, ',', '.');
      RemoveConcat("-", Replace(g, ',', '.'), '.');
      assert Remove("-", '.') == "-";
    }
  }

  /** In `fmt_int_br(n)` the dots sit exactly every fourth position from the end
      of the digits (groups of three), after the sign of a negative number. */
  lemma FmtIntBrGroups(n: int)
    ensures n >= 0 ==> EveryFourth(FmtIntBr(n), '.')
    ensures n < 0 ==> FmtIntBr(n)[0] == '-' && EveryFourth(FmtIntBr(n)[1..], '.')
  {
    var m := if n < 0 then -n else n;
    var d := NatToString(m);
    GroupChars(d);
    GroupSeparators(d);
    var g := Group(d);
    assert Thousands(n) == (if n < 0 then "-" else "") + g;
    DotsForCommas(g);
    if n < 0 {
      assert FmtIntBr(n)[1..] == Replace(g, ',', '.');
    }
  }

  /** Turning the commas of a grouping without dots into dots moves the
      separator pattern from commas to dots. */
  lemma DotsForCommas(g: string)
    requires EveryFourth(g, ',')
    requires forall i :: 0 <= i < |g| ==> g[i] == ',' || IsDigit(g[i])
    ensures EveryFourth(Replace(g, ',', '.'), '.')
  {
  }

  /** The two digits of a number of hundredths below 100. */
  function TwoDigits(k: nat): (r: string)
    requires k < 100
    ensures |r| == 2 && AllDigits(r)
  {
    [DigitChar(k / 10), DigitChar(k % 10)]
  }

  /** `f"{x:,.2f}"` for an amount of `c` hundredths. */
  function EnUs2(c: int): string
  {
    var m := if c < 0 then -c else c;
    (if c < 0 then "-" else "") + Group(NatToString(m / 100)) + "." + TwoDigits(m % 100)
  }

  /** `fmt_float2_br`: three replacements through the placeholder `X`. */
  function FmtFloat2Br(c: int): string
  {
    Replace(Replace(Replace(EnUs2(c), ',', 'X'), '.', ','), 'X', '.')
  }

  /** Exchange of `,` and `.`, everything else kept. */
  function Swap(s: string): (r: string)
    ensures |r| == |s|
    ensures forall i :: 0 <= i < |s| ==>
              r[i] == (if s[i] == ',' then '.' else if s[i] == '.' then ',' else s[i])
  {
    seq(|s|, i requires 0 <= i < |s| => if s[i] == ',' then '.' else if s[i] == '.' then ',' else s[i])
  }

  /** Exchanging twice gives the string back. */
  lemma SwapInvolutive(s: string)
    ensures Swap(Swap(s)) == s
  {
  }

  /** The placeholder dance is the exchange whenever the string holds no `X`. */
  lemma PlaceholderIsSwap(s: string)
    requires 'X' !in s
    ensures Replace(Replace(Replace(s, ',', 'X'), '.', ','), 'X', '.') == Swap(s)
  {
    var r := Replace(Replace(Replace(s, ',', 'X'), '.', ','), 'X', '.');
    forall i | 0 <= i < |s|
      ensures r[i] == Swap(s)[i]
    {
      assert s[i] != 'X';
    }
  }

  lemma EnUs2Chars(c: int)
    ensures 'X' !in EnUs2(c)
  {
    var m := if c < 0 then -c else c;
    var d := NatToString(m / 100);
    GroupChars(d);
    var g := Group(d);
    assert 'X' !in g;
    assert 'X' !in TwoDigits(m % 100);
  }

  lemma SwapConcat(a: string, b: string)
    ensures Swap(a + b) == Swap(a) + Swap(b)
  {
  }

  /** On a string without dots the exchange only turns commas into dots. */
  lemma SwapNoDots(s: string)
    requires '.' !in s
    ensures Swap(s) == Replace(s, ',', '.')
  {
  }

  /** `fmt_float2_br` is the en-US two-decimal rendering with `,` and `.`
      exchanged, so exchanging again gives the en-US rendering back. */
  lemma FmtFloat2BrSwap(c: int)
    ensures FmtFloat2Br(c) == Swap(EnUs2(c))
    ensures Swap(FmtFloat2Br(c)) == EnUs2(c)
  {
    EnUs2Chars(c);
    PlaceholderIsSwap(EnUs2(c));
    SwapInvolutive(EnUs2(c));
  }

  /** The exchange on the magnitude part `<grouped integer>.<two digits>`. */
  lemma SwapMagnitude(m: nat)
    ensures Swap(Group(NatToString(m / 100)) + "." + TwoDigits(m % 100)) ==
            FmtIntBr(m / 100) + "," + TwoDigits(m % 100)
  {
    var d := NatToString(m / 100);
    GroupChars(d);
    var g := Group(d);
    var two := TwoDigits(m % 100);
    SwapConcat(g + ".", two);
    SwapConcat(g, ".");
    SwapNoDots(g);
    assert Swap(".") == ",";
    assert Swap(two) == two;
    assert Thousands(m / 100) == g;
  }

  /** A non-negative amount renders as its integer part formatted by
      `fmt_int_br`, a comma and two decimals. */
  lemma FmtFloat2BrNonNegative(c: int)
    requires c >= 0
    ensures FmtFloat2Br(c) == FmtIntBr(c / 100) + "," + TwoDigits(c % 100)
  {
    var mag := Group(NatToString(c / 100)) + "." + TwoDigits(c % 100);
    FmtFloat2BrSwap(c);
    EnUs2NonNegative(c);
    SwapMagnitude(c);
    calc {
      FmtFloat2Br(c);
      Swap(EnUs2(c));
      Swap(mag);
      FmtIntBr(c / 100) + "," + TwoDigits(c % 100);
    }
  }

  lemma EnUs2NonNegative(c: int)
    requires c >= 0
    ensures EnUs2(c) == Group(NatToString(c / 100)) + "." + TwoDigits(c % 100)
  {
  }

  /** A negative amount renders as `-` before the rendering of its magnitude. */
  lemma FmtFloat2BrNegative(c: int)
    requires c < 0
    ensures FmtFloat2Br(c) == "-" + FmtFloat2Br(-c)
  {
    FmtFloat2BrSwap(c);
    FmtFloat2BrSwap(-c);
    EnUs2Negative(c);
    SwapConcat("-", EnUs2(-c));
    SwapSign();
    calc {
      FmtFloat2Br(c);
      Swap(EnUs2(c));
      Swap("-" + EnUs2(-c));
      Swap("-") + Swap(EnUs2(-c));
      "-" + FmtFloat2Br(-c);
    }
  }

  lemma EnUs2Negative(c: int)
    requires c < 0
    ensures EnUs2(c) == "-" + EnUs2(-c)
  {
  }

  lemma SwapSign()
    ensures Swap("-") == "-"
  {
  }
}

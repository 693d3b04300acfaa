/**
 * String helpers the handlers and pages rely on, written out from the
 * JavaScript built-ins they call: the `\s` character class, the global
 * `replace(/\s+/g, '-')`, `includes`, an ASCII `toLowerCase` and the decimal
 * rendering of an integer inside a template literal.
 */
module Text {

  /** The characters JavaScript's `\s` matches (WhiteSpace and LineTerminator). */
  predicate IsSpace(c: char)
  {
    || c == '\t' || c == '\n' || c == '\U{000B}' || c == '\U{000C}' || c == '\r' || c == ' '
    || c == '\U{00A0}' || c == '\U{1680}' || ('\U{2000}' <= c <= '\U{200A}')
    || c == '\U{2028}' || c == '\U{2029}' || c == '\U{202F}' || c == '\U{205F}'
    || c == '\U{3000}' || c == '\U{FEFF}'
  }

  predicate NoSpace(s: string)
  {
    forall i :: 0 <= i < |s| ==> !IsSpace(s[i])
  }

  /** Drops the run of whitespace at the front of `s`. */
  function DropSpaces(s: string): (r: string)
    ensures |r| <= |s|
    ensures r == [] || !IsSpace(r[0])
    ensures NoSpace(s) ==> r == s
  {
    if s != [] && IsSpace(s[0]) then DropSpaces(s[1..]) else s
  }

  /** `s.replace(/\s+/g, '-')`: every maximal run of whitespace becomes one `-`. */
  function CollapseSpaces(s: string): (r: string)
    decreases |s|
  {
    if s == [] then []
    else if IsSpace(s[0]) then "-" + CollapseSpaces(DropSpaces(s[1..]))
    else [s[0]] + CollapseSpaces(s[1..])
  }

  /** The characters of `s` that are neither whitespace nor `-`, in order. */
  function Visible(s: string): string
  {
    if s == [] then []
    else if IsSpace(s[0]) || s[0] == '-' then Visible(s[1..])
    else [s[0]] + Visible(s[1..])
  }

  lemma {:induction false} CollapseHasNoSpace(s: string)
    ensures NoSpace(CollapseSpaces(s))
    decreases |s|
  {
    if s == [] {
    } else if IsSpace(s[0]) {
      CollapseHasNoSpace(DropSpaces(s[1..]));
    } else {
      CollapseHasNoSpace(s[1..]);
    }
  }

  lemma {:induction false} CollapseKeepsClean(s: string)
    requires NoSpace(s)
    ensures CollapseSpaces(s) == s
  {
    if s != [] {
      assert !IsSpace(s[0]);
      CollapseKeepsClean(s[1..]);
    }
  }

  /** Collapsing twice is collapsing once. */
  lemma CollapseIdempotent(s: string)
    ensures CollapseSpaces(CollapseSpaces(s)) == CollapseSpaces(s)
  {
    CollapseHasNoSpace(s);
    CollapseKeepsClean(CollapseSpaces(s));
  }

  /**
   * A second reading of the replacement, one character at a time: a
   * whitespace character becomes `-` when the character before it is not
   * whitespace (`afterSpace` false), and disappears when it is; any other
   * character stays.
   */
  function Dashed(s: string, afterSpace: bool): string
  {
    if s == [] then []
    else if IsSpace(s[0]) then (if afterSpace then "" else "-") + Dashed(s[1..], true)
    else [s[0]] + Dashed(s[1..], false)
  }

  lemma {:induction false} DashedSkipsRun(s: string)
    ensures Dashed(s, true) == Dashed(DropSpaces(s), true)
  {
    if s != [] && IsSpace(s[0]) {
      DashedSkipsRun(s[1..]);
    }
  }

  /** The run-collapsing replacement agrees with the character-wise reading on every string. */
  lemma {:induction false} CollapseIsDashed(s: string)
    ensures CollapseSpaces(s) == Dashed(s, false)
    decreases |s|
  {
    if s == [] {
    } else if IsSpace(s[0]) {
      var t := DropSpaces(s[1..]);
      CollapseIsDashed(t);
      assert Dashed(t, false) == Dashed(t, true);
      DashedSkipsRun(s[1..]);
    } else {
      CollapseIsDashed(s[1..]);
    }
  }

  /** A run of a space and a tab becomes one dash. */
  lemma CollapseExample()
    ensures CollapseSpaces("a \tb") == "a-b"
  {
    var s := "a \tb";
    assert s[1..][1..] == "\tb" && s[1..][1..][1..] == "b";
    assert DropSpaces(s[1..][1..]) == "b";
    assert CollapseSpaces("b") == "b";
  }

  lemma {:induction false} VisibleDropSpaces(s: string)
    ensures Visible(DropSpaces(s)) == Visible(s)
  {
    if s != [] && IsSpace(s[0]) {
      VisibleDropSpaces(s[1..]);
    }
  }

  /** Collapsing keeps every other character, in its order. */
  lemma {:induction false} CollapseKeepsVisible(s: string)
    ensures Visible(CollapseSpaces(s)) == Visible(s)
    decreases |s|
  {
    if s == [] {
    } else if IsSpace(s[0]) {
      var t := DropSpaces(s[1..]);
      CollapseKeepsVisible(t);
      VisibleDropSpaces(s[1..]);
      assert ("-" + CollapseSpaces(t))[1..] == CollapseSpaces(t);
    } else {
      CollapseKeepsVisible(s[1..]);
      assert ([s[0]] + CollapseSpaces(s[1..]))[1..] == CollapseSpaces(s[1..]);
    }
  }

  predicate StartsWith(s: string, prefix: string)
  {
    |prefix| <= |s| && s[..|prefix|] == prefix
  }

  /** `s.includes(t)`. */
  predicate Contains(s: string, t: string)
    decreases |s|
  {
    StartsWith(s, t) || (s != [] && Contains(s[1..], t))
  }

  /** `t` occurs in `s` starting at index `i`. */
  predicate OccursAt(s: string, t: string, i: int)
  {
    0 <= i && i + |t| <= |s| && s[i..i + |t|] == t
  }

  /** `Contains` holds exactly when `t` occurs at some position of `s`. */
  lemma {:induction false} ContainsAt(s: string, t: string)
    ensures Contains(s, t) <==> exists i :: OccursAt(s, t, i)
    decreases |s|
  {
    if StartsWith(s, t) {
      assert OccursAt(s, t, 0);
    } else if s != [] {
      ContainsAt(s[1..], t);
      if exists i :: OccursAt(s, t, i) {
        var i :| OccursAt(s, t, i);
        assert i != 0;
        assert s[1..][i - 1..i - 1 + |t|] == s[i..i + |t|];
        assert OccursAt(s[1..], t, i - 1);
      }
      if exists i :: OccursAt(s[1..], t, i) {
        var i :| OccursAt(s[1..], t, i);
        assert s[i + 1..i + 1 + |t|] == s[1..][i..i + |t|];
        assert OccursAt(s, t, i + 1);
      }
    }
  }

  /** Every character of an occurring substring is a character of the string. */
  lemma {:induction false} ContainsChar(s: string, t: string, c: char)
    requires Contains(s, t) && c in t
    ensures c in s
    decreases |s|
  {
    if StartsWith(s, t) {
      assert c in s[..|t|];
    } else {
      ContainsChar(s[1..], t, c);
    }
  }

  /** ASCII `toLowerCase` of one character. */
  function LowerChar(c: char): (r: char)
  {
    if 'A' <= c <= 'Z' then (c as int + 32) as char else c
  }

  /** ASCII `toLowerCase`. */
  function Lower(s: string): (r: string)
    ensures |r| == |s|
  {
    seq(|s|, i requires 0 <= i < |s| => LowerChar(s[i]))
  }

  lemma LowerIdempotent(s: string)
    ensures Lower(Lower(s)) == Lower(s)
  {
  }

  predicate IsDigit(c: char)
  {
    '0' <= c <= '9'
  }

  function DigitChar(d: int): (c: char)
    requires 0 <= d < 10
    ensures IsDigit(c)
  {
    ('0' as int + d) as char
  }

  /** The decimal rendering `${n}` of a non-negative integer. */
  function Decimal(n: nat): (r: string)
    ensures r != []
    ensures forall i :: 0 <= i < |r| ==> IsDigit(r[i])
    ensures r[0] == '0' ==> n == 0
  {
    if n < 10 then [DigitChar(n)] else Decimal(n / 10) + [DigitChar(n % 10)]
  }

  function DigitValue(c: char): (d: nat)
    requires IsDigit(c)
    ensures d < 10
  {
    c as int - '0' as int
  }

  /** Reads a string of decimal digits back as a number. */
  function ParseDecimal(s: string): nat
    requires forall i :: 0 <= i < |s| ==> IsDigit(s[i])
  {
    if s == [] then 0
    else ParseDecimal(s[..|s| - 1]) * 10 + DigitValue(s[|s| - 1])
  }

  lemma {:induction false} ParseDecimalOfDecimal(n: nat)
    ensures ParseDecimal(Decimal(n)) == n
  {
    if n >= 10 {
      var r := Decimal(n);
      assert r[..|r| - 1] == Decimal(n / 10);
      ParseDecimalOfDecimal(n / 10);
    }
  }

  lemma DecimalInjective(m: nat, n: nat)
    requires Decimal(m) == Decimal(n)
    ensures m == n
  {
    ParseDecimalOfDecimal(m);
    ParseDecimalOfDecimal(n);
  }
}

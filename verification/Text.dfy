/** String helpers shared by the other modules: whitespace and trimming as Python's `str` does them. */
module Text {

  /** Python's `str.isspace` for one character. */
  predicate IsSpace(c: char) {
    var n := c as int;
    || 9 <= n <= 13 || 28 <= n <= 32 || n == 0x85 || n == 0xa0 || n == 0x1680
    || 0x2000 <= n <= 0x200a || n == 0x2028 || n == 0x2029 || n == 0x202f || n == 0x205f || n == 0x3000
  }

  /** The ASCII characters that are whitespace, one by one. */
  lemma AsciiSpaces(c: char)
    requires c as int < 128
    ensures IsSpace(c) <==> c in "\t\n\U{b}\U{c}\r\U{1c}\U{1d}\U{1e}\U{1f} "
  {
    var s, n := "\t\n\U{b}\U{c}\r\U{1c}\U{1d}\U{1e}\U{1f} ", c as int;
    if 9 <= n <= 13 { assert s[n - 9] == c; }
    if 28 <= n <= 32 { assert s[n - 23] == c; }
  }

  /** No whitespace at either end. */
  predicate Trimmed(s: string) {
    s == "" || (!IsSpace(s[0]) && !IsSpace(s[|s| - 1]))
  }

  /** Python's `str.strip()`. */
  function Strip(s: string): (r: string)
    ensures Trimmed(r)
    ensures Trimmed(s) ==> r == s
    ensures |r| <= |s|
  {
    if s == "" then s
    else if IsSpace(s[0]) then Strip(s[1..])
    else if IsSpace(s[|s| - 1]) then Strip(s[..|s| - 1])
    else s
  }

  /** A string that is empty or all whitespace: the one `not s.strip()` accepts. */
  predicate Blank(s: string) {
    Strip(s) == ""
  }

  /** Trimming leaves a trimmed string alone, so it is blank only when it is empty. */
  lemma StripTrimmed(s: string)
    requires Trimmed(s)
    ensures Strip(s) == s && (Blank(s) <==> s == "")
  {
  }

  /** The strings of a list, trimmed, without blank ones. */
  function NonBlanks(xs: seq<string>): (r: seq<string>)
    ensures forall x :: x in r ==> x != "" && Trimmed(x)
    ensures (forall x :: x in xs ==> x != "" && Trimmed(x)) ==> r == xs
  {
    if xs == [] then []
    else
      assert xs[0] in xs && forall x :: x in xs[1..] ==> x in xs;
      (if Blank(xs[0]) then [] else [Strip(xs[0])]) + NonBlanks(xs[1..])
  }

  lemma StripStep(s: string)
    ensures Strip(s) == if s != "" && IsSpace(s[0]) then Strip(s[1..])
                        else if s != "" && IsSpace(s[|s| - 1]) then Strip(s[..|s| - 1]) else s
  {
    hide IsSpace;
  }

  /** Trimming takes whitespace off both ends and nothing else. */
  lemma {:induction false} StripTakesSpace(s: string) returns (a: string, b: string)
    ensures s == a + Strip(s) + b
    ensures (forall c :: c in a ==> IsSpace(c)) && (forall c :: c in b ==> IsSpace(c))
  {
    hide IsSpace, Strip;
    StripStep(s);
    a, b := "", "";
    if s != "" && IsSpace(s[0]) {
      a, b := StripTakesSpace(s[1..]);
      FrontJoin(s[0], a, Strip(s), b);
      a := [s[0]] + a;
    } else if s != "" && IsSpace(s[|s| - 1]) {
      a, b := StripTakesSpace(s[..|s| - 1]);
      BackJoin(s[|s| - 1], a, Strip(s), b);
      b := b + [s[|s| - 1]];
    }
  }

  lemma FrontJoin(c: char, a: string, m: string, b: string)
    ensures [c] + (a + m + b) == ([c] + a) + m + b
  {
  }

  lemma BackJoin(c: char, a: string, m: string, b: string)
    ensures (a + m + b) + [c] == a + m + (b + [c])
  {
  }

  /** The trimmed strings that are not empty, in order. */
  lemma {:induction false} NonBlanksInOrder(xs: seq<string>, x: string)
    ensures NonBlanks(xs + [x]) == NonBlanks(xs) + if Strip(x) == "" then [] else [Strip(x)]
  {
    hide Strip;
    var all := xs + [x];
    if xs == [] {
      assert all[1..] == [];
    } else {
      assert all[1..] == xs[1..] + [x];
      NonBlanksInOrder(xs[1..], x);
    }
  }

  /** Python's `str.lower()` on ASCII letters. */
  function Lower(s: string): (r: string)
    ensures |r| == |s|
  {
    seq(|s|, i requires 0 <= i < |s| => if 'A' <= s[i] <= 'Z' then (s[i] as int + 32) as char else s[i])
  }

  /** Lowering works letter by letter and maps the alphabet in order. */
  lemma LowerLetters(s: string, t: string)
    ensures Lower(s + t) == Lower(s) + Lower(t)
    ensures Lower("ABCDEFGHIJKLMNOPQRSTUVWXYZ") == "abcdefghijklmnopqrstuvwxyz"
  {
  }

  /** It changes capital letters only. */
  lemma LowerFixed(s: string)
    ensures Lower(s) == s <==> forall i :: 0 <= i < |s| ==> !('A' <= s[i] <= 'Z')
  {
    assert forall i :: 0 <= i < |s| ==> (Lower(s)[i] == s[i] <==> !('A' <= s[i] <= 'Z'));
  }

  // ---------------------------------------------------------------- decimal numbers

  function Digit(d: nat): (c: char)
    requires d < 10
    ensures c != '-'
  {
    "0123456789"[d]
  }

  function Decimal(n: nat): (s: string)
    ensures s != "" && '-' !in s
  {
    if n < 10 then [Digit(n)] else Decimal(n / 10) + [Digit(n % 10)]
  }

  lemma DigitInjective(a: nat, b: nat)
    requires a < 10 && b < 10 && Digit(a) == Digit(b)
    ensures a == b
  {
  }

  lemma {:induction false} DecimalInjective(m: nat, n: nat)
    requires Decimal(m) == Decimal(n)
    ensures m == n
    decreases m
  {
    var s, t := Decimal(m), Decimal(n);
    assert s[|s| - 1] == Digit(m % 10) && t[|t| - 1] == Digit(n % 10);
    DigitInjective(m % 10, n % 10);
    if m >= 10 && n >= 10 {
      assert s[..|s| - 1] == Decimal(m / 10) && t[..|t| - 1] == Decimal(n / 10);
      DecimalInjective(m / 10, n / 10);
    }
  }

  predicate IsDigits(s: string) {
    forall c :: c in s ==> '0' <= c <= '9'
  }

  /** The number a string of decimal digits stands for. */
  function DecimalValue(s: string): int {
    if s == "" then 0 else 10 * DecimalValue(s[..|s| - 1]) + (s[|s| - 1] as int - '0' as int)
  }

  lemma DigitsNext(a: string, c: char)
    requires IsDigits(a) && '0' <= c <= '9'
    ensures IsDigits(a + [c]) && DecimalValue(a + [c]) == 10 * DecimalValue(a) + (c as int - '0' as int)
  {
    assert (a + [c])[..|a|] == a;
  }

  lemma DigitValue(d: nat)
    requires d < 10
    ensures '0' <= Digit(d) <= '9' && Digit(d) as int - '0' as int == d
  {
  }

  /** A number is printed in decimal digits, without leading zeros. */
  lemma {:induction false} DecimalReads(n: nat)
    ensures IsDigits(Decimal(n)) && DecimalValue(Decimal(n)) == n && (Decimal(n)[0] == '0' ==> Decimal(n) == "0")
  {
    assert DecimalValue("0") == 0;
    DigitValue(n % 10);
    if n >= 10 {
      DecimalReads(n / 10);
      hide Digit, IsDigits, DecimalValue;
      DigitsNext(Decimal(n / 10), Digit(n % 10));
    }
  }

  function FirstDash(s: string): nat {
    if s == "" || s[0] == '-' then 0 else 1 + FirstDash(s[1..])
  }

  lemma {:induction false} FirstDashOf(a: string, b: string)
    requires '-' !in a
    ensures FirstDash(a + "-" + b) == |a|
  {
    if a != "" {
      assert (a + "-" + b)[1..] == a[1..] + "-" + b;
      FirstDashOf(a[1..], b);
    }
  }

  /** A dash-free prefix up to the first dash is determined by the whole. */
  lemma SplitAtDash(a: string, b: string, c: string, d: string)
    requires '-' !in a && '-' !in c && a + "-" + b == c + "-" + d
    ensures a == c && b == d
  {
    FirstDashOf(a, b);
    FirstDashOf(c, d);
    var s := a + "-" + b;
    assert s[..|a|] == a && s[|a| + 1..] == b;
    assert s[..|a|] == c && s[|a| + 1..] == d;
  }

  function Dashes(s: string): nat {
    if s == "" then 0 else (if s[0] == '-' then 1 else 0) + Dashes(s[1..])
  }

  lemma {:induction false} DashesJoin(a: string, b: string)
    ensures Dashes(a + b) == Dashes(a) + Dashes(b)
  {
    if a == "" {
      assert a + b == b;
    } else {
      assert (a + b)[1..] == a[1..] + b;
      DashesJoin(a[1..], b);
    }
  }

  lemma {:induction false} NoDashes(s: string)
    requires '-' !in s
    ensures Dashes(s) == 0
  {
    if s != "" { NoDashes(s[1..]); }
  }
}

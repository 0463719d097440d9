/** Python string primitives that the extractor and the language-model client rely on:
    the whitespace class shared by `str.strip()` and the regular-expression class `\s`,
    `strip()` itself, ASCII case folding and `str(int)`. */
module Text {

  /** Python's `str.isspace()` for one character; `re` uses the same test for `\s` on
      str patterns. These are the code points U+0009..U+000D, U+001C..U+0020, U+0085,
      U+00A0, U+1680, U+2000..U+200A, U+2028, U+2029, U+202F, U+205F and U+3000. */
  predicate IsSpace(c: char) {
    var n := c as int;
    (0x09 <= n <= 0x0D) || (0x1C <= n <= 0x20) || n == 0x85 || n == 0xA0 || n == 0x1680
    || (0x2000 <= n <= 0x200A) || n == 0x2028 || n == 0x2029 || n == 0x202F || n == 0x205F
    || n == 0x3000
  }

  predicate AllSpace(s: string) {
    forall i :: 0 <= i < |s| ==> IsSpace(s[i])
  }

  /** No whitespace at either end: what `strip()` leaves behind. */
  predicate Trimmed(s: string) {
    s == [] || (!IsSpace(s[0]) && !IsSpace(s[|s| - 1]))
  }

  /** `s.lstrip()`: drops whitespace from the front. */
  function TrimLeft(s: string): (r: string)
    ensures |r| <= |s|
    ensures s != [] && IsSpace(s[0]) ==> |r| < |s|
    ensures r == [] || !IsSpace(r[0])
  {
    if s != [] && IsSpace(s[0]) then TrimLeft(s[1..]) else s
  }

  /** `s.rstrip()`: drops whitespace from the back. */
  function TrimRight(s: string): (r: string)
    ensures |r| <= |s|
    ensures r != [] ==> r[0] == s[0]
    ensures r == [] || !IsSpace(r[|r| - 1])
  {
    if s != [] && IsSpace(s[|s| - 1]) then TrimRight(s[..|s| - 1]) else s
  }

  /** What `lstrip()` leaves is a suffix, and everything it cut is whitespace. */
  lemma {:induction false} TrimLeftSuffix(s: string)
    ensures TrimLeft(s) == s[|s| - |TrimLeft(s)|..]
    ensures AllSpace(s[..|s| - |TrimLeft(s)|])
    decreases |s|
  {
    if s != [] && IsSpace(s[0]) {
      TrimLeftSuffix(s[1..]);
      var k := |s| - |TrimLeft(s)|;
      assert s[1..][k - 1..] == s[k..];
      forall i | 0 <= i < k ensures IsSpace(s[i]) {
        if i > 0 {
          assert s[i] == s[1..][..k - 1][i - 1];
        }
      }
    } else {
      assert s[0..] == s;
    }
  }

  /** What `rstrip()` leaves is a prefix, and everything it cut is whitespace. */
  lemma {:induction false} TrimRightPrefix(s: string)
    ensures TrimRight(s) == s[..|TrimRight(s)|]
    ensures AllSpace(s[|TrimRight(s)|..])
    decreases |s|
  {
    if s != [] && IsSpace(s[|s| - 1]) {
      var n := |s| - 1;
      TrimRightPrefix(s[..n]);
      var k := |TrimRight(s)|;
      assert s[..n][..k] == s[..k];
      forall i | k <= i < |s| ensures IsSpace(s[i]) {
        if i < n {
          assert s[i] == s[..n][k..][i - k];
        }
      }
    } else {
      assert s[..|s|] == s;
    }
  }

  /** `r` is the piece of `s` starting at `a` with only whitespace cut off on both sides. */
  predicate StrippedFrom(r: string, s: string, a: nat) {
    a + |r| <= |s| && r == s[a..a + |r|] && AllSpace(s[..a]) && AllSpace(s[a + |r|..])
  }

  /** Python's `s.strip()` with no argument. */
  function Trim(s: string): (r: string)
    ensures Trimmed(r)
    ensures Trimmed(s) ==> r == s
  {
    TrimRight(TrimLeft(s))
  }

  /** `strip()` cuts only whitespace, and only from the two ends. */
  lemma TrimStripped(s: string)
    ensures StrippedFrom(Trim(s), s, |s| - |TrimLeft(s)|)
  {
    var l := TrimLeft(s);
    var r := TrimRight(l);
    var a := |s| - |l|;
    TrimLeftSuffix(s);
    TrimRightPrefix(l);
    assert r == s[a..a + |r|] by {
      assert l[..|r|] == s[a..a + |r|];
    }
    assert s[a + |r|..] == l[|r|..];
    assert StrippedFrom(r, s, a);
  }

  lemma {:induction false} TrimLeftSpaces(a: string, s: string)
    requires AllSpace(a)
    ensures TrimLeft(a + s) == TrimLeft(s)
    decreases |a|
  {
    if a != [] {
      assert IsSpace(a[0]) && AllSpace(a[1..]);
      assert (a + s)[0] == a[0] && (a + s)[1..] == a[1..] + s;
      assert TrimLeft(a + s) == TrimLeft(a[1..] + s);
      TrimLeftSpaces(a[1..], s);
    } else {
      assert a + s == s;
    }
  }

  lemma {:induction false} TrimRightSpaces(s: string, b: string)
    requires AllSpace(b)
    ensures TrimRight(s + b) == TrimRight(s)
    decreases |b|
  {
    if b != [] {
      assert IsSpace(b[|b| - 1]) && AllSpace(b[..|b| - 1]);
      assert (s + b)[|s + b| - 1] == b[|b| - 1] && (s + b)[..|s + b| - 1] == s + b[..|b| - 1];
      assert TrimRight(s + b) == TrimRight(s + b[..|b| - 1]);
      TrimRightSpaces(s, b[..|b| - 1]);
    } else {
      assert s + b == s;
    }
  }

  /** Whitespace added around a string makes no difference to `strip()`. */
  lemma TrimPadded(a: string, s: string, b: string)
    requires AllSpace(a) && AllSpace(b)
    ensures Trim(a + s + b) == Trim(s)
  {
    assert a + s + b == a + (s + b);
    TrimLeftSpaces(a, s + b);
    var l := TrimLeft(s);
    if l == [] {
      TrimLeftEmpty(s);
      assert AllSpace(s + b) by {
        forall i | 0 <= i < |s + b| ensures IsSpace((s + b)[i]) {
          if i < |s| {
            assert (s + b)[i] == s[i];
          } else {
            assert (s + b)[i] == b[i - |s|];
          }
        }
      }
      TrimLeftEmpty(s + b);
    } else {
      TrimLeftKeepsTail(s, b);
      TrimRightSpaces(l, b);
    }
  }

  /** `lstrip()` leaves nothing exactly when there is nothing but whitespace. */
  lemma {:induction false} TrimLeftEmpty(s: string)
    ensures TrimLeft(s) == [] <==> AllSpace(s)
    decreases |s|
  {
    if s != [] && IsSpace(s[0]) {
      TrimLeftEmpty(s[1..]);
      if AllSpace(s[1..]) {
        forall i | 0 < i < |s| ensures IsSpace(s[i]) {
          assert s[i] == s[1..][i - 1];
        }
      }
    }
  }

  /** Once `s` holds a non-whitespace character, text after it is never stripped from the left. */
  lemma {:induction false} TrimLeftKeepsTail(s: string, b: string)
    requires TrimLeft(s) != []
    ensures TrimLeft(s + b) == TrimLeft(s) + b
    decreases |s|
  {
    if IsSpace(s[0]) {
      assert (s + b)[1..] == s[1..] + b;
      TrimLeftKeepsTail(s[1..], b);
    }
  }

  /** The non-whitespace characters of `s`, in order. */
  function Visible(s: string): string
  {
    if s == [] then [] else (if IsSpace(s[0]) then [] else [s[0]]) + Visible(s[1..])
  }

  lemma {:induction false} VisibleAppend(a: string, b: string)
    ensures Visible(a + b) == Visible(a) + Visible(b)
    decreases |a|
  {
    if a != [] {
      var head := if IsSpace(a[0]) then [] else [a[0]];
      assert (a + b)[0] == a[0] && (a + b)[1..] == a[1..] + b;
      calc {
        Visible(a + b);
        head + Visible(a[1..] + b);
        { VisibleAppend(a[1..], b); }
        head + (Visible(a[1..]) + Visible(b));
        (head + Visible(a[1..])) + Visible(b);
      }
    } else {
      assert a + b == b;
    }
  }

  /** A character survives in `Visible(s)` exactly when it occurs in `s` and is not
      whitespace. */
  lemma {:induction false} VisibleHas(s: string, c: char)
    ensures c in Visible(s) <==> c in s && !IsSpace(c)
    decreases |s|
  {
    if s != [] {
      VisibleHas(s[1..], c);
      assert s == [s[0]] + s[1..];
    }
  }

  lemma {:induction false} TrimLeftVisible(s: string)
    ensures Visible(TrimLeft(s)) == Visible(s)
    decreases |s|
  {
    if s != [] && IsSpace(s[0]) {
      TrimLeftVisible(s[1..]);
    }
  }

  lemma {:induction false} TrimRightVisible(s: string)
    ensures Visible(TrimRight(s)) == Visible(s)
    decreases |s|
  {
    if s != [] && IsSpace(s[|s| - 1]) {
      var n := |s| - 1;
      TrimRightVisible(s[..n]);
      assert s == s[..n] + [s[n]];
      VisibleAppend(s[..n], [s[n]]);
      assert Visible([s[n]]) == [] by {
        assert Visible([s[n]]) == Visible([s[n]][1..]);
      }
    }
  }

  /** `strip()` removes only whitespace. */
  lemma TrimVisible(s: string)
    ensures Visible(Trim(s)) == Visible(s)
  {
    TrimLeftVisible(s);
    TrimRightVisible(TrimLeft(s));
  }

  /** ASCII case folding, the part of `re.IGNORECASE` this model keeps. */
  function AsciiLower(c: char): char {
    if 'A' <= c <= 'Z' then (c as int + 32) as char else c
  }

  function DigitChar(d: nat): char
    requires d < 10
  {
    "0123456789"[d]
  }

  predicate IsDigit(c: char) {
    '0' <= c <= '9'
  }

  /** Decimal digits of `n` with no leading zero, as `str(n)` writes a non-negative int. */
  function NatToDecimal(n: nat): (r: string)
    ensures |r| >= 1
    ensures forall i :: 0 <= i < |r| ==> IsDigit(r[i])
    ensures r[0] == '0' ==> n == 0 && r == "0"
    decreases n
  {
    if n < 10 then [DigitChar(n)] else NatToDecimal(n / 10) + [DigitChar(n % 10)]
  }

  /** Python's `str(n)` for an int. */
  function IntToDecimal(n: int): (r: string)
    ensures |r| >= 1 && (n < 0 <==> r[0] == '-')
    ensures n >= 0 ==> (forall i :: 0 <= i < |r| ==> IsDigit(r[i])) && DecimalValue(r) == n
    ensures n >= 0 ==> (r[0] == '0' ==> r == "0")
    ensures n < 0 ==> (forall i :: 1 <= i < |r| ==> IsDigit(r[i])) && DecimalValue(r[1..]) == -n
    ensures n < 0 ==> |r| >= 2 && r[1] != '0'
  {
    if n < 0 then
      DecimalRoundTrip(-n);
      var digits := NatToDecimal(-n);
      assert ("-" + digits)[1..] == digits;
      "-" + digits
    else
      DecimalRoundTrip(n);
      NatToDecimal(n)
  }

  /** The value of a string of decimal digits (reference for `NatToDecimal`). */
  function DecimalValue(s: string): nat
    requires forall i :: 0 <= i < |s| ==> IsDigit(s[i])
  {
    if s == [] then 0
    else
      assert IsDigit(s[|s| - 1]);
      DecimalValue(s[..|s| - 1]) * 10 + (s[|s| - 1] as int - '0' as int)
  }

  lemma {:induction false} DecimalRoundTrip(n: nat)
    ensures DecimalValue(NatToDecimal(n)) == n
    decreases n
  {
    if n >= 10 {
      var r := NatToDecimal(n);
      assert r[..|r| - 1] == NatToDecimal(n / 10);
      DecimalRoundTrip(n / 10);
    }
  }
}

/** `re.sub(r"\s+", " ", s)`: the last step of `extract_sql`, which puts the statement on
    one line by turning every run of whitespace into a single space. */
module Whitespace {
  import opened Text

  /** Whitespace normal form: the only whitespace character is ' ' and no two are adjacent. */
  ghost predicate SingleSpaced(s: string) {
    (forall i :: 0 <= i < |s| && IsSpace(s[i]) ==> s[i] == ' ')
    && (forall i, j :: 0 <= i < j < |s| && j == i + 1 ==> s[i] != ' ' || s[j] != ' ')
  }

  /** Scans left to right; a whitespace character starts a maximal run (`\s+` is greedy),
      which is replaced by one space; any other character is kept. */
  function Collapse(s: string): (r: string)
    ensures |r| <= |s| && (r == [] <==> s == [])
    ensures s != [] && !IsSpace(s[0]) ==> r[0] == s[0]
    decreases |s|
  {
    if s == [] then []
    else if IsSpace(s[0]) then
      var rest := TrimLeft(s);
      assert rest != s;
      " " + Collapse(rest)
    else
      [s[0]] + Collapse(s[1..])
  }

  /** The result is in whitespace normal form. */
  lemma {:induction false} CollapseSingleSpaced(s: string)
    ensures SingleSpaced(Collapse(s))
    decreases |s|
  {
    if s != [] {
      var r := Collapse(s);
      if IsSpace(s[0]) {
        var rest := TrimLeft(s);
        CollapseSingleSpaced(rest);
        assert r == " " + Collapse(rest);
        assert rest != [] ==> !IsSpace(rest[0]);
      } else {
        CollapseSingleSpaced(s[1..]);
        assert r == [s[0]] + Collapse(s[1..]);
      }
    }
  }

  /** Collapsing loses no non-whitespace character and adds none. */
  lemma {:induction false} CollapseVisible(s: string)
    ensures Visible(Collapse(s)) == Visible(s)
    decreases |s|
  {
    if s != [] {
      if IsSpace(s[0]) {
        var rest := TrimLeft(s);
        var x := Collapse(rest);
        assert (" " + x)[0] == ' ' && (" " + x)[1..] == x;
        TrimLeftVisible(s);
        CollapseVisible(rest);
      } else {
        VisibleAppend([s[0]], Collapse(s[1..]));
        CollapseVisible(s[1..]);
      }
    }
  }

  /** Every character of the result is a space or occurs in the input: the result is
      single-spaced and has the input's non-whitespace characters. */
  lemma CollapseChars(s: string, c: char)
    ensures c in Collapse(s) && c != ' ' ==> c in s
  {
    var r := Collapse(s);
    if c in r && c != ' ' {
      CollapseSingleSpaced(s);
      var j :| 0 <= j < |r| && r[j] == c;
      assert !IsSpace(c);
      VisibleHas(r, c);
      CollapseVisible(s);
      VisibleHas(s, c);
    }
  }

  /** A string is left unchanged exactly when it is already in whitespace normal form. */
  lemma {:induction false} CollapseFixedPoint(s: string)
    ensures Collapse(s) == s <==> SingleSpaced(s)
    decreases |s|
  {
    CollapseSingleSpaced(s);
    if s != [] && SingleSpaced(s) {
      assert SingleSpaced(s[1..]);
      if IsSpace(s[0]) {
        assert s[0] == ' ';
        assert |s| > 1 ==> !IsSpace(s[1]);
        assert TrimLeft(s) == s[1..];
      }
      CollapseFixedPoint(s[1..]);
    }
  }

  /** Text without whitespace is left as it is. */
  lemma {:induction false} CollapseNoSpace(s: string)
    requires forall k :: 0 <= k < |s| ==> !IsSpace(s[k])
    ensures Collapse(s) == s
    decreases |s|
  {
    if s != [] {
      assert forall k :: 0 <= k < |s| - 1 ==> !IsSpace(s[1..][k]);
      CollapseNoSpace(s[1..]);
    }
  }

  /** A run cannot span the seam after a non-whitespace character, so the halves collapse apart. */
  lemma {:induction false} CollapseAppend(a: string, b: string)
    requires a == [] || !IsSpace(a[|a| - 1])
    ensures Collapse(a + b) == Collapse(a) + Collapse(b)
    decreases |a|, 1
  {
    if a == [] {
      assert a + b == b;
    } else if IsSpace(a[0]) {
      CollapseAppendRun(a, b);
    } else {
      CollapseAppendChar(a, b);
    }
  }

  /** `CollapseAppend` when `a` starts with a run of whitespace. */
  lemma {:induction false} CollapseAppendRun(a: string, b: string)
    requires a != [] && IsSpace(a[0]) && !IsSpace(a[|a| - 1])
    ensures Collapse(a + b) == Collapse(a) + Collapse(b)
    decreases |a|, 0
  {
    var rest := TrimLeft(a);
    var x := Collapse(rest);
    assert Collapse(a) == " " + x;
    assert Collapse(a + b) == " " + (x + Collapse(b)) by {
      TrimLeftEmpty(a);
      assert (a + b)[0] == a[0];
      TrimLeftKeepsTail(a, b);
      TrimLeftSuffix(a);
      assert rest[|rest| - 1] == a[|a| - 1];
      CollapseAppend(rest, b);
    }
    assert " " + (x + Collapse(b)) == (" " + x) + Collapse(b);
  }

  /** `CollapseAppend` when `a` starts with a non-whitespace character. */
  lemma {:induction false} CollapseAppendChar(a: string, b: string)
    requires a != [] && !IsSpace(a[0]) && !IsSpace(a[|a| - 1])
    ensures Collapse(a + b) == Collapse(a) + Collapse(b)
    decreases |a|, 0
  {
    var x := Collapse(a[1..]);
    assert Collapse(a) == [a[0]] + x;
    assert Collapse(a + b) == [a[0]] + (x + Collapse(b)) by {
      assert (a + b)[0] == a[0] && (a + b)[1..] == a[1..] + b;
      CollapseAppend(a[1..], b);
    }
    assert [a[0]] + (x + Collapse(b)) == ([a[0]] + x) + Collapse(b);
  }

  lemma {:induction false} TrimLeftSnoc(s: string, c: char)
    requires !IsSpace(c)
    ensures TrimLeft(s + [c]) == TrimLeft(s) + [c]
    decreases |s|
  {
    if s == [] {
      assert s + [c] == [c];
    } else if IsSpace(s[0]) {
      assert (s + [c])[1..] == s[1..] + [c];
      TrimLeftSnoc(s[1..], c);
    }
  }

  /** A final non-whitespace character survives collapsing as the final character. */
  lemma {:induction false} CollapseSnoc(s: string, c: char)
    requires !IsSpace(c)
    ensures Collapse(s + [c]) == Collapse(s) + [c]
    decreases |s|
  {
    if s == [] {
      assert s + [c] == [c];
      assert Collapse([c]) == [c] + Collapse([]);
    } else if IsSpace(s[0]) {
      var rest := TrimLeft(s);
      var x := Collapse(rest);
      assert Collapse(s) == " " + x;
      assert Collapse(s + [c]) == " " + (x + [c]) by {
        assert (s + [c])[0] == s[0];
        TrimLeftSnoc(s, c);
        CollapseSnoc(rest, c);
      }
      assert " " + (x + [c]) == (" " + x) + [c];
    } else {
      assert (s + [c])[0] == s[0] && (s + [c])[1..] == s[1..] + [c];
      calc {
        Collapse(s + [c]);
        [s[0]] + Collapse(s[1..] + [c]);
        { CollapseSnoc(s[1..], c); }
        [s[0]] + (Collapse(s[1..]) + [c]);
        Collapse(s) + [c];
      }
    }
  }

  /** Collapsing keeps a string free of whitespace at both ends. */
  lemma CollapseTrimmed(s: string)
    requires Trimmed(s)
    ensures Trimmed(Collapse(s))
  {
    if s != [] {
      var n := |s| - 1;
      assert s == s[..n] + [s[n]];
      CollapseSnoc(s[..n], s[n]);
    }
  }
}

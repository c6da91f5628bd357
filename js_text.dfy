/** The two JavaScript string built-ins the widget relies on:
    `String.prototype.trim` (applied to the input field) and the default
    comparator of `Array.prototype.sort` (applied to the blacklist), which
    compares strings code unit by code unit. */
module JsText {

  /** ECMAScript WhiteSpace and LineTerminator code points: TAB, LF, VT, FF,
      CR, the space separators (category Zs), LS, PS and ZWNBSP. These are
      exactly the characters `trim` removes. */
  predicate IsWhitespace(c: char): (r: bool)
    ensures c == ' ' || c == '\t' || c == '\n' || c == '\r' ==> r
    ensures r ==> !('0' <= c <= '9') && c != '+' && c != '-' && c != '(' && c != ')'
  {
    var n := c as int;
    || (0x09 <= n <= 0x0D)
    || n == 0x20 || n == 0xA0 || n == 0x1680
    || (0x2000 <= n <= 0x200A)
    || n == 0x2028 || n == 0x2029 || n == 0x202F || n == 0x205F
    || n == 0x3000 || n == 0xFEFF
  }

  predicate AllWhitespace(s: string) {
    forall i :: 0 <= i < |s| ==> IsWhitespace(s[i])
  }

  /** `s` with its leading whitespace removed. */
  function TrimStart(s: string): (r: string)
    ensures |r| <= |s|
    ensures AllWhitespace(s[..|s| - |r|])
    ensures r == [] || !IsWhitespace(r[0])
  {
    if s != [] && IsWhitespace(s[0]) then TrimStart(s[1..]) else s
  }

  /** `s` with its trailing whitespace removed. */
  function TrimEnd(s: string): (r: string)
    ensures |r| <= |s|
    ensures AllWhitespace(s[|r|..])
    ensures r == [] || !IsWhitespace(r[|r| - 1])
  {
    if s != [] && IsWhitespace(s[|s| - 1]) then TrimEnd(s[..|s| - 1]) else s
  }

  lemma {:induction false} TrimStartIsSuffix(s: string)
    ensures TrimStart(s) == s[|s| - |TrimStart(s)|..]
  {
    if s != [] && IsWhitespace(s[0]) {
      TrimStartIsSuffix(s[1..]);
    }
  }

  lemma {:induction false} TrimEndIsPrefix(s: string)
    ensures TrimEnd(s) == s[..|TrimEnd(s)|]
  {
    if s != [] && IsWhitespace(s[|s| - 1]) {
      TrimEndIsPrefix(s[..|s| - 1]);
    }
  }

  /** `s.trim()`: whitespace cut from both ends. */
  function Trim(s: string): (r: string)
    ensures |r| <= |s|
    ensures r == [] <==> AllWhitespace(s)
    ensures r != [] ==> !IsWhitespace(r[0]) && !IsWhitespace(r[|r| - 1])
  {
    var t := TrimStart(s);
    TrimStartIsSuffix(s);
    TrimEndIsPrefix(t);
    assert TrimEnd(t) == [] ==> t == [] && s[..|s| - |t|] == s;
    assert t != [] ==> t[0] == s[|s| - |t|];
    TrimEnd(t)
  }

  /** What `trim` keeps is one contiguous piece of the input, and what it
      cuts on either side is whitespace. */
  lemma TrimIsInfix(s: string)
    ensures exists k :: CutAt(s, Trim(s), k)
  {
    var t := TrimStart(s);
    var r := TrimEnd(t);
    var k := |s| - |t|;
    assert Trim(s) == r;
    TrimStartIsSuffix(s);
    TrimEndIsPrefix(t);
    SliceOfSuffix(s, k, |r|);
    assert AllWhitespace(s[k + |r|..]) by {
      assert s[k + |r|..] == t[|r|..];
    }
    assert r == s[k..k + |r|];
    assert CutAt(s, Trim(s), k);
  }

  /** `r` sits at offset `k` of `s` with only whitespace before and after. */
  predicate CutAt(s: string, r: string, k: int) {
    && 0 <= k <= k + |r| <= |s| && r == s[k..k + |r|]
    && AllWhitespace(s[..k]) && AllWhitespace(s[k + |r|..])
  }

  lemma SliceOfSuffix(s: string, k: nat, n: nat)
    requires k + n <= |s|
    ensures s[k..][..n] == s[k..k + n] && s[k..][n..] == s[k + n..]
  {
  }

  /** Trimming twice trims nothing more. */
  lemma TrimIdempotent(s: string)
    ensures Trim(Trim(s)) == Trim(s)
  {
    TrimUnpadded(Trim(s));
  }

  /** A string that neither starts nor ends with whitespace is its own trim. */
  lemma TrimUnpadded(s: string)
    requires s == [] || (!IsWhitespace(s[0]) && !IsWhitespace(s[|s| - 1]))
    ensures Trim(s) == s
  {
  }

  /** Whitespace padding on either side does not change the trimmed value:
      `" 555 "` and `"555"` name the same entry. */
  lemma {:induction false} TrimPadded(before: string, s: string, after: string)
    requires AllWhitespace(before) && AllWhitespace(after)
    ensures Trim(before + s + after) == Trim(s)
  {
    assert before + s + after == before + (s + after);
    TrimStartPadded(before, s + after);
    if AllWhitespace(s) {
      assert AllWhitespace(s + after) by {
        forall i | 0 <= i < |s + after| ensures IsWhitespace((s + after)[i]) {
          if i >= |s| { assert (s + after)[i] == after[i - |s|]; }
        }
      }
      TrimStartIsSuffix(s + after);
      assert TrimStart(s + after) == [];
      assert Trim(s) == [];
    } else {
      TrimStartAppend(s, after);
      TrimEndPadded(TrimStart(s), after);
    }
  }

  lemma {:induction false} TrimStartPadded(ws: string, s: string)
    requires AllWhitespace(ws)
    ensures TrimStart(ws + s) == TrimStart(s)
  {
    if ws != [] {
      assert IsWhitespace((ws + s)[0]);
      assert (ws + s)[1..] == ws[1..] + s;
      TrimStartPadded(ws[1..], s);
    } else {
      assert ws + s == s;
    }
  }

  lemma {:induction false} TrimStartAppend(s: string, tail: string)
    requires !AllWhitespace(s)
    ensures TrimStart(s + tail) == TrimStart(s) + tail
  {
    if IsWhitespace(s[0]) {
      assert (s + tail)[1..] == s[1..] + tail;
      TrimStartAppend(s[1..], tail);
    }
  }

  lemma {:induction false} TrimEndPadded(s: string, ws: string)
    requires AllWhitespace(ws)
    ensures TrimEnd(s + ws) == TrimEnd(s)
  {
    if ws != [] {
      assert IsWhitespace((s + ws)[|s + ws| - 1]);
      assert (s + ws)[..|s + ws| - 1] == s + ws[..|ws| - 1];
      TrimEndPadded(s, ws[..|ws| - 1]);
    } else {
      assert s + ws == s;
    }
  }

  /** Strict character order, the order of the default `sort` comparator.
      It agrees with JavaScript's code-unit `<` except between a character
      above U+FFFF and one in U+E000–U+FFFF. */
  predicate Less(a: string, b: string): (r: bool)
    ensures r ==> a != b
    ensures a == [] ==> (r <==> b != [])
  {
    b != [] && (a == [] || a[0] < b[0] || (a[0] == b[0] && Less(a[1..], b[1..])))
  }

  /** `a <= b` in the same order. */
  predicate LessEq(a: string, b: string) {
    a == b || Less(a, b)
  }

  /** The order is by character, not by numeric value: "10" sorts before
      "9", and a leading zero sorts first. */
  lemma NotNumericOrder()
    ensures Less("10", "9") && Less("004", "123") && Less("12", "123")
  {
  }

  /** After a common prefix, the first differing character decides the
      order, whatever the lengths and numeric values of the rest. */
  lemma {:induction false} FirstDifferenceDecides(p: string, c: char, d: char, s: string, t: string)
    requires c < d
    ensures Less(p + [c] + s, p + [d] + t)
  {
    if p != [] {
      assert (p + [c] + s)[1..] == p[1..] + [c] + s;
      assert (p + [d] + t)[1..] == p[1..] + [d] + t;
      FirstDifferenceDecides(p[1..], c, d, s, t);
    }
  }

  /** A proper prefix sorts before every extension of it. */
  lemma {:induction false} PrefixFirst(p: string, rest: string)
    requires rest != []
    ensures Less(p, p + rest)
  {
    if p != [] {
      assert (p + rest)[1..] == p[1..] + rest;
      PrefixFirst(p[1..], rest);
    }
  }

  lemma {:induction false} LessIrreflexive(a: string)
    ensures !Less(a, a)
  {
    if a != [] {
      LessIrreflexive(a[1..]);
    }
  }

  lemma {:induction false} LessTransitive(a: string, b: string, c: string)
    requires Less(a, b) && Less(b, c)
    ensures Less(a, c)
  {
    if a != [] && a[0] == b[0] && b[0] == c[0] {
      LessTransitive(a[1..], b[1..], c[1..]);
    }
  }

  lemma {:induction false} LessTotal(a: string, b: string)
    ensures a == b || Less(a, b) || Less(b, a)
  {
    if a != [] && b != [] && a[0] == b[0] {
      LessTotal(a[1..], b[1..]);
      if a[1..] == b[1..] {
        assert a == [a[0]] + a[1..] && b == [b[0]] + b[1..];
      }
    }
  }

  lemma LessEqAntisymmetric(a: string, b: string)
    requires LessEq(a, b) && LessEq(b, a)
    ensures a == b
  {
    if a != b {
      LessTransitive(a, b, a);
      LessIrreflexive(a);
    }
  }
}

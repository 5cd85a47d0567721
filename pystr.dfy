/** Python's built-in string operations that the modelled code relies on:
    `sub in s`, `str.replace`, `str.strip(c)`, `str.rstrip(c)`, `str.join`
    and `str * n`, over `seq<char>`. */
module PyStr {

  /** `s` begins with `p`. */
  predicate StartsWith(s: string, p: string) {
    |p| <= |s| && s[..|p|] == p
  }

  /** Python's `sub in s`; the empty string occurs in every string. */
  predicate Contains(s: string, sub: string)
    decreases |s|
  {
    StartsWith(s, sub) || (|s| > 0 && Contains(s[1..], sub))
  }

  /** `s.replace("", repl)`: `repl` before every character and at the end. */
  function InsertEverywhere(s: string, repl: string): (r: string)
    ensures |r| == |s| + (|s| + 1) * |repl|
  {
    if |s| == 0 then repl else repl + [s[0]] + InsertEverywhere(s[1..], repl)
  }

  /** `s.replace(pat, repl)`: every occurrence of `pat`, scanned left to right
      without overlap, is replaced by `repl`. */
  function Replace(s: string, pat: string, repl: string): string
    decreases |s|
  {
    if |pat| == 0 then InsertEverywhere(s, repl)
    else if |s| == 0 then []
    else if StartsWith(s, pat) then repl + Replace(s[|pat|..], pat, repl)
    else [s[0]] + Replace(s[1..], pat, repl)
  }

  /** A character in the result of `replace` comes from the subject or from
      the replacement. */
  lemma {:induction false} ReplaceChars(s: string, pat: string, repl: string, c: char)
    requires |pat| > 0
    requires c in Replace(s, pat, repl)
    ensures c in s || c in repl
    decreases |s|
  {
    if |s| == 0 {
    } else if StartsWith(s, pat) {
      if c !in repl {
        ReplaceChars(s[|pat|..], pat, repl, c);
        assert s[|pat|..] == s[|pat|..|s|];
      }
    } else if c != s[0] {
      ReplaceChars(s[1..], pat, repl, c);
    }
  }

  /** Replacing a one-character pattern by a text without that character
      leaves no occurrence of it. */
  lemma {:induction false} ReplaceRemovesChar(s: string, c: char, repl: string)
    requires c !in repl
    ensures c !in Replace(s, [c], repl)
    decreases |s|
  {
    if |s| > 0 {
      ReplaceRemovesChar(s[1..], c, repl);
      if !StartsWith(s, [c]) {
        assert s[..1] == [s[0]];
      }
    }
  }

  /** Text in which the pattern does not occur comes back unchanged. */
  lemma {:induction false} ReplaceAbsent(s: string, pat: string, repl: string)
    requires |pat| > 0 && !Contains(s, pat)
    ensures Replace(s, pat, repl) == s
    decreases |s|
  {
    if |s| > 0 {
      ReplaceAbsent(s[1..], pat, repl);
      assert [s[0]] + s[1..] == s;
    }
  }

  /** Text that holds no occurrence of the pattern's first character is
      copied through before `replace` reaches the rest. */
  lemma {:induction false} ReplaceSkip(a: string, b: string, pat: string, repl: string)
    requires |pat| > 0 && pat[0] !in a
    ensures Replace(a + b, pat, repl) == a + Replace(b, pat, repl)
    decreases |a|
  {
    if |a| == 0 {
      assert a + b == b;
    } else {
      var s := a + b;
      assert s[0] == a[0] && s[1..] == a[1..] + b;
      assert !StartsWith(s, pat);
      calc {
        Replace(s, pat, repl);
        [s[0]] + Replace(s[1..], pat, repl);
        { ReplaceSkip(a[1..], b, pat, repl); }
        [a[0]] + (a[1..] + Replace(b, pat, repl));
        { assert [a[0]] + a[1..] == a; }
        a + Replace(b, pat, repl);
      }
    }
  }

  /** An occurrence of the pattern at the front is replaced first. */
  lemma ReplaceFront(pat: string, b: string, repl: string)
    requires |pat| > 0
    ensures Replace(pat + b, pat, repl) == repl + Replace(b, pat, repl)
  {
    assert StartsWith(pat + b, pat);
    assert (pat + b)[|pat|..] == b;
  }

  /** Deleting a character that does not occur changes nothing. */
  lemma DeleteAbsentChar(s: string, c: char)
    requires c !in s
    ensures Replace(s, [c], "") == s
  {
    ReplaceSkip(s, "", [c], "");
    assert s + "" == s;
  }

  /** Deleting the one occurrence of a character joins the text around it. */
  lemma DeleteOnlyChar(a: string, c: char, b: string)
    requires c !in a && c !in b
    ensures Replace(a + [c] + b, [c], "") == a + b
  {
    var pat := [c];
    var rest := pat + b;
    assert a + [c] + b == a + rest;
    var tail := Replace(rest, pat, "");
    assert tail == b by {
      ReplaceFront(pat, b, "");
      DeleteAbsentChar(b, c);
      assert "" + b == b;
    }
    assert Replace(a + rest, pat, "") == a + tail by {
      ReplaceSkip(a, rest, pat, "");
    }
  }

  /** A pattern that ends the text, and whose first character occurs nowhere
      before it, is the only one replaced. */
  lemma ReplaceAtEnd(a: string, pat: string, repl: string)
    requires |pat| > 0 && pat[0] !in a
    ensures Replace(a + pat, pat, repl) == a + repl
  {
    ReplaceSkip(a, pat, pat, repl);
    ReplaceFront(pat, [], repl);
    assert pat + [] == pat;
    assert repl + [] == repl;
  }

  /** Every character of a substring occurs in the text that contains it. */
  lemma {:induction false} ContainsChars(s: string, sub: string, c: char)
    requires Contains(s, sub) && c in sub
    ensures c in s
    decreases |s|
  {
    if StartsWith(s, sub) {
      assert s[..|sub|] == sub;
    } else {
      ContainsChars(s[1..], sub, c);
    }
  }

  /** Replacing a pattern by itself changes nothing. */
  lemma {:induction false} ReplaceSelf(s: string, pat: string)
    requires |pat| > 0
    ensures Replace(s, pat, pat) == s
    decreases |s|
  {
    if |s| > 0 {
      if StartsWith(s, pat) {
        ReplaceSelf(s[|pat|..], pat);
        assert pat + s[|pat|..] == s;
      } else {
        ReplaceSelf(s[1..], pat);
        assert [s[0]] + s[1..] == s;
      }
    }
  }

  /** `s.lstrip(c)` for a single character `c`. */
  function LStrip(s: string, c: char): (r: string)
    ensures |r| <= |s|
    ensures r == [] || r[0] != c
    decreases |s|
  {
    if |s| > 0 && s[0] == c then LStrip(s[1..], c) else s
  }

  /** What `lstrip` leaves is a suffix of its argument, and only `c` was
      removed. */
  lemma {:induction false} LStripSuffix(s: string, c: char)
    ensures var r := LStrip(s, c);
      r == s[|s| - |r|..] && forall i :: 0 <= i < |s| - |r| ==> s[i] == c
    decreases |s|
  {
    if |s| > 0 && s[0] == c {
      LStripSuffix(s[1..], c);
    }
  }

  /** `s.rstrip(c)` for a single character `c`. */
  function RStrip(s: string, c: char): (r: string)
    ensures |r| <= |s|
    ensures r == [] || r[|r| - 1] != c
    decreases |s|
  {
    if |s| > 0 && s[|s| - 1] == c then RStrip(s[..|s| - 1], c) else s
  }

  /** What `rstrip` leaves is a prefix of its argument, and only `c` was
      removed. */
  lemma {:induction false} RStripPrefix(s: string, c: char)
    ensures var r := RStrip(s, c);
      r == s[..|r|] && forall i :: |r| <= i < |s| ==> s[i] == c
    decreases |s|
  {
    if |s| > 0 && s[|s| - 1] == c {
      RStripPrefix(s[..|s| - 1], c);
    }
  }

  /** `s.strip(c)`: both ends. */
  function Strip(s: string, c: char): (r: string)
    ensures r == [] || (r[0] != c && r[|r| - 1] != c)
  {
    var l := LStrip(s, c);
    RStripPrefix(l, c);
    RStrip(l, c)
  }

  /** What `strip` leaves is a slice of its argument. */
  lemma StripSlice(s: string, c: char)
    ensures var i := |s| - |LStrip(s, c)|; var r := Strip(s, c);
      i + |r| <= |s| && r == s[i..i + |r|]
  {
    LStripSuffix(s, c);
    RStripPrefix(LStrip(s, c), c);
  }

  /** `sep.join(parts)`. */
  function Join(parts: seq<string>, sep: string): string
    decreases |parts|
  {
    if |parts| == 0 then []
    else if |parts| == 1 then parts[0]
    else parts[0] + sep + Join(parts[1..], sep)
  }

  /** `s * n`. */
  function Repeat(s: string, n: nat): (r: string)
    ensures |r| == n * |s|
  {
    if n == 0 then [] else s + Repeat(s, n - 1)
  }
}

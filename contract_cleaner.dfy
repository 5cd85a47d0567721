/** The two string cleaners of the government-contracts pipeline:
    company-name normalisation and the repair of mistyped years. */
module ContractCleaner {
  import opened Wrappers
  import opened PyStr

  // ---------------------------------------------------------------------------
  // reformat_names
  // ---------------------------------------------------------------------------

  /** Normalise a recipient name: a missing name becomes "missing"; otherwise
      commas and full stops are dropped and the two legal-form words are
      abbreviated (matching is case-sensitive). */
  function ReformatNames(name: Option<string>): (r: string)
    ensures name.None? ==> r == "missing"
  {
    match name
    case None => "missing"
    case Some(s) =>
      Replace(Replace(Replace(Replace(s, ",", ""), ".", ""), "INCORPORATED", "INC"),
              "LIMITED LIABILITY COMPANY", "LLC")
  }

  /** A reformatted name holds no comma and no full stop. */
  lemma ReformatNamesNoPunctuation(name: Option<string>)
    ensures ',' !in ReformatNames(name) && '.' !in ReformatNames(name)
  {
    if name.Some? {
      var s := name.value;
      var a := Replace(s, ",", "");
      var b := Replace(a, ".", "");
      var c := Replace(b, "INCORPORATED", "INC");
      var d := Replace(c, "LIMITED LIABILITY COMPANY", "LLC");
      assert d == ReformatNames(name);
      ReplaceRemovesChar(s, ',', "");
      ReplaceRemovesChar(a, '.', "");
      if ',' in a {
        ReplaceChars(s, ",", "", ',');
      }
      if ',' in b {
        ReplaceChars(a, ".", "", ',');
      }
      if ',' in c {
        ReplaceChars(b, "INCORPORATED", "INC", ',');
      }
      if ',' in d {
        ReplaceChars(c, "LIMITED LIABILITY COMPANY", "LLC", ',');
      }
      if '.' in c {
        ReplaceChars(b, "INCORPORATED", "INC", '.');
      }
      if '.' in d {
        ReplaceChars(c, "LIMITED LIABILITY COMPANY", "LLC", '.');
      }
    }
  }

  /** A name in which none of the four patterns occurs is returned as it is. */
  lemma ReformatNamesUnchanged(s: string)
    requires !Contains(s, ",") && !Contains(s, ".")
    requires !Contains(s, "INCORPORATED") && !Contains(s, "LIMITED LIABILITY COMPANY")
    ensures ReformatNames(Some(s)) == s
  {
    ReplaceAbsent(s, ",", "");
    ReplaceAbsent(s, ".", "");
    ReplaceAbsent(s, "INCORPORATED", "INC");
    ReplaceAbsent(s, "LIMITED LIABILITY COMPANY", "LLC");
  }

  // The documented examples, proved for any leading word. Each step is a
  // lemma of its own: with all four rewrites in one context the solver
  // unfolds `Replace` on the literal patterns far too often.

  lemma DropComma(w: string)
    requires ',' !in w
    ensures Replace(w + ", INCORPORATED.", ",", "") == w + " INCORPORATED."
  {
    CommaSplit();
    DeleteLeadingChar(w, ',', ", INCORPORATED.", " INCORPORATED.");
  }

  lemma CommaSplit()
    ensures ", INCORPORATED." == [','] + " INCORPORATED." && ',' !in " INCORPORATED."
  {
  }

  /** Deleting the one occurrence of `c`, which starts the text `s` after
      `a`, leaves `a` followed by the rest of `s`. */
  lemma DeleteLeadingChar(a: string, c: char, s: string, rest: string)
    requires s == [c] + rest && c !in a && c !in rest
    ensures Replace(a + s, [c], "") == a + rest
  {
    DeleteOnlyChar(a, c, rest);
    assert a + [c] + rest == a + s;
  }

  lemma DropStop(w: string)
    requires '.' !in w
    ensures Replace(w + " INCORPORATED.", ".", "") == w + " INCORPORATED"
  {
    var b := w + " INCORPORATED";
    DeleteOnlyChar(b, '.', []);
    assert b + ['.'] + [] == w + " INCORPORATED.";
    assert b + [] == b;
  }

  lemma AbbreviateInc(w: string)
    requires 'I' !in w
    ensures Replace(w + " INCORPORATED", "INCORPORATED", "INC") == w + " INC"
  {
    ReplaceAtEnd(w + " ", "INCORPORATED", "INC");
    assert w + " " + "INCORPORATED" == w + " INCORPORATED";
    assert w + " " + "INC" == w + " INC";
  }

  lemma KeepInc(w: string)
    requires 'L' !in w
    ensures Replace(w + " INC", "LIMITED LIABILITY COMPANY", "LLC") == w + " INC"
  {
    var c := w + " INC";
    ReplaceSkip(c, [], "LIMITED LIABILITY COMPANY", "LLC");
    assert c + [] == c;
  }

  /** "<w>, INCORPORATED." becomes "<w> INC" when the word `w` holds none of
      the characters that start a pattern. */
  lemma ReformatNamesIncorporated(w: string)
    requires ',' !in w && '.' !in w && 'I' !in w && 'L' !in w
    ensures ReformatNames(Some(w + ", INCORPORATED.")) == w + " INC"
  {
    DropComma(w);
    DropStop(w);
    AbbreviateInc(w);
    KeepInc(w);
  }

  lemma KeepLimited(x: string)
    requires ',' !in x && '.' !in x && 'R' !in x
    ensures Replace(Replace(Replace(x, ",", ""), ".", ""), "INCORPORATED", "INC") == x
  {
    DeleteAbsentChar(x, ',');
    DeleteAbsentChar(x, '.');
    if Contains(x, "INCORPORATED") {
      ContainsChars(x, "INCORPORATED", 'R');
    }
    ReplaceAbsent(x, "INCORPORATED", "INC");
  }

  /** "<w>LIMITED LIABILITY COMPANY" becomes "<w>LLC". */
  lemma ReformatNamesLimited(w: string)
    requires ',' !in w && '.' !in w && 'R' !in w && 'L' !in w
    ensures ReformatNames(Some(w + "LIMITED LIABILITY COMPANY")) == w + "LLC"
  {
    KeepLimited(w + "LIMITED LIABILITY COMPANY");
    ReplaceAtEnd(w, "LIMITED LIABILITY COMPANY", "LLC");
  }

  /** The documented example with a comma, a full stop and "INCORPORATED". */
  lemma ReformatNamesAcme(s: string)
    requires s == "ACME, INCORPORATED."
    ensures ReformatNames(Some(s)) == "ACME INC"
  {
    AcmeParts(s);
    ReformatNamesIncorporated("ACME");
  }

  lemma AcmeParts(s: string)
    requires s == "ACME, INCORPORATED."
    ensures "ACME" + ", INCORPORATED." == s && "ACME" + " INC" == "ACME INC"
    ensures ',' !in "ACME" && '.' !in "ACME" && 'I' !in "ACME" && 'L' !in "ACME"
  {
  }

  /** The documented example "LIMITED LIABILITY COMPANY". */
  lemma ReformatNamesLlc()
    ensures ReformatNames(Some("LIMITED LIABILITY COMPANY")) == "LLC"
  {
    ReformatNamesLimited("");
    assert "" + "LIMITED LIABILITY COMPANY" == "LIMITED LIABILITY COMPANY";
  }

  /** Matching is case-sensitive: a lower-case legal form is kept. */
  lemma ReformatNamesCaseSensitive(s: string)
    requires s == "acme incorporated"
    ensures ReformatNames(Some(s)) == s
  {
    assert ',' !in s && '.' !in s && 'R' !in s && 'L' !in s;
    ReformatNamesPlain(s);
  }

  /** A name without the first letter of any pattern is kept. */
  lemma ReformatNamesPlain(s: string)
    requires ',' !in s && '.' !in s && 'R' !in s && 'L' !in s
    ensures ReformatNames(Some(s)) == s
  {
    if Contains(s, ",") {
      ContainsChars(s, ",", ',');
    }
    if Contains(s, ".") {
      ContainsChars(s, ".", '.');
    }
    if Contains(s, "INCORPORATED") {
      ContainsChars(s, "INCORPORATED", 'R');
    }
    if Contains(s, "LIMITED LIABILITY COMPANY") {
      ContainsChars(s, "LIMITED LIABILITY COMPANY", 'L');
    }
    ReformatNamesUnchanged(s);
  }

  // ---------------------------------------------------------------------------
  // fix_date_issues
  // ---------------------------------------------------------------------------

  /** The ASCII characters Python's `str.strip()` removes. */
  predicate IsSpace(c: char) {
    c == ' ' || c == '\t' || c == '\n' || c == '\r' || c == '\U{000B}' || c == '\U{000C}'
    || ('\U{001C}' <= c <= '\U{001F}')
  }

  predicate IsDigit(c: char) {
    '0' <= c <= '9'
  }

  function DigitValue(c: char): (d: nat)
    requires IsDigit(c)
    ensures d < 10
  {
    c as int - '0' as int
  }

  /** `s.strip()`: surrounding white space removed. */
  function StripSpace(s: string): (r: string)
    ensures |r| <= |s|
    ensures r == [] || (!IsSpace(r[0]) && !IsSpace(r[|r| - 1]))
    decreases |s|
  {
    if |s| == 0 then s
    else if IsSpace(s[0]) then StripSpace(s[1..])
    else if IsSpace(s[|s| - 1]) then StripSpace(s[..|s| - 1])
    else s
  }

  /** The digit string of a Python integer literal: digits, with single
      underscores allowed between two digits. */
  predicate DigitGroups(s: string)
    decreases |s|
  {
    |s| > 0 && IsDigit(s[0]) &&
    (|s| == 1 || (if s[1] == '_' then DigitGroups(s[2..]) else DigitGroups(s[1..])))
  }

  /** The decimal value of the digits of `s`, underscores skipped. */
  function DigitsValue(s: string): (v: nat)
    decreases |s|
  {
    if |s| == 0 then 0
    else if IsDigit(s[|s| - 1]) then DigitsValue(s[..|s| - 1]) * 10 + DigitValue(s[|s| - 1])
    else DigitsValue(s[..|s| - 1])
  }

  /** Python's `int(s)` in base 10: None where Python raises ValueError. */
  function ParseInt(s: string): Option<int> {
    var t := StripSpace(s);
    if |t| > 0 && (t[0] == '+' || t[0] == '-') then
      if DigitGroups(t[1..]) then
        Some(if t[0] == '-' then -(DigitsValue(t[1..]) as int) else DigitsValue(t[1..]) as int)
      else None
    else if DigitGroups(t) then Some(DigitsValue(t))
    else None
  }

  /** Python's `s[:n]` and `s[n:]`, which clamp to the length. */
  function Head(s: string, n: nat): string {
    if |s| <= n then s else s[..n]
  }

  function Tail(s: string, n: nat): string {
    if |s| <= n then [] else s[n..]
  }

  /** A year in the first four characters outside 2000..2100 gets "20" as
      its first two characters; a missing value stays missing, and a prefix
      `int()` cannot read raises ValueError. */
  function FixDateIssues(date: Option<string>): (r: Result<Option<string>, PyError>)
    ensures date.None? <==> r == Success(None)
    ensures r.Failure? <==> date.Some? && ParseInt(Head(date.value, 4)).None?
    ensures r.Failure? ==> r.error == ValueError
    ensures r.Success? && date.Some? ==> r.value.Some?
    ensures r.Success? && date.Some? && |date.value| >= 2 ==>
      var t := r.value.value;
      |t| == |date.value| && t[2..] == date.value[2..] && (t == date.value || t[..2] == "20")
  {
    match date
    case None => Success(None)
    case Some(s) =>
      match ParseInt(Head(s, 4))
      case None => Failure(ValueError)
      case Some(year) =>
        if year < 2000 || year > 2100 then Success(Some("20" + Tail(s, 2)))
        else Success(Some(s))
  }

  /** The year rule itself: a readable year within 2000..2100 keeps the
      value as it is, any other readable year replaces the first two
      characters by "20". */
  lemma FixDateYearRule(s: string, year: int)
    requires ParseInt(Head(s, 4)) == Some(year)
    ensures 2000 <= year <= 2100 ==> FixDateIssues(Some(s)) == Success(Some(s))
    ensures year < 2000 || year > 2100 ==> FixDateIssues(Some(s)) == Success(Some("20" + Tail(s, 2)))
  {
  }

  /** Text without surrounding white space is what `strip()` returns. */
  lemma StripSpaceNone(s: string)
    requires s == [] || (!IsSpace(s[0]) && !IsSpace(s[|s| - 1]))
    ensures StripSpace(s) == s
  {
  }

  /** Four ASCII digits read as the year they spell. */
  lemma {:induction false} ParseFourDigits(p: string)
    requires |p| == 4 && forall i :: 0 <= i < 4 ==> IsDigit(p[i])
    ensures ParseInt(p) == Some(1000 * DigitValue(p[0]) + 100 * DigitValue(p[1])
                                + 10 * DigitValue(p[2]) + DigitValue(p[3]))
  {
    StripSpaceNone(p);
    assert DigitGroups(p[3..]);
    assert p[2..][1..] == p[3..];
    assert DigitGroups(p[2..]);
    assert p[1..][1..] == p[2..];
    assert DigitGroups(p[1..]);
    assert p[1..] == p[0..][1..];
    assert DigitGroups(p);
    assert p[..3][..2] == p[..2];
    assert p[..2][..1] == p[..1];
    assert p[..1][..0] == [];
    assert DigitsValue(p[..1]) == DigitValue(p[0]);
    assert DigitsValue(p[..2]) == 10 * DigitValue(p[0]) + DigitValue(p[1]);
    assert DigitsValue(p[..3]) == 100 * DigitValue(p[0]) + 10 * DigitValue(p[1]) + DigitValue(p[2]);
  }

  /** On a value whose first four characters are digits the repair is
      idempotent: a repaired year lies in 2000..2099 and is kept. */
  lemma FixDateIdempotent(s: string)
    requires |s| >= 4 && forall i :: 0 <= i < 4 ==> IsDigit(s[i])
    ensures FixDateIssues(Some(s)).Success?
    ensures var t := FixDateIssues(Some(s)).value.value;
      FixDateIssues(Some(t)) == Success(Some(t))
  {
    assert Head(s, 4) == s[..4];
    ParseFourDigits(s[..4]);
    var r := FixDateIssues(Some(s));
    assert r.Success?;
    var t := r.value.value;
    assert Head(t, 4) == t[..4];
    if t != s {
      assert t == "20" + s[2..];
      assert t[0] == '2' && t[1] == '0' && t[2] == s[2] && t[3] == s[3];
    }
    ParseFourDigits(t[..4]);
  }

  /** Idempotence needs the digits: "   5" reads as 5 and becomes "20 5",
      which `int()` then rejects. */
  lemma FixDateNotIdempotent(s: string)
    requires s == "   5"
    ensures FixDateIssues(Some(s)) == Success(Some("20 5"))
    ensures FixDateIssues(Some("20 5")) == Failure(ValueError)
  {
    assert StripSpace(s) == "5" by {
      assert s[1..] == "  5" && s[1..][1..] == " 5" && s[1..][1..][1..] == "5";
      assert StripSpace("5") == "5";
      assert StripSpace(" 5") == "5";
      assert StripSpace("  5") == "5";
    }
    assert DigitGroups("5");
    assert DigitsValue("5") == 5 by {
      assert "5"[..0] == [];
    }
    assert "20" + Tail(s, 2) == "20 5";
    StripSpaceNone("20 5");
    assert !DigitGroups("20 5") by {
      assert "20 5"[1..][1..] == " 5";
    }
  }
}

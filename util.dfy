/** Helpers shared by the metadata-sync core: splitting work into chunks,
    normalising field names, taking a workbook's name from its file path,
    and looking up server object ids by name. */
module Util {
  import opened Wrappers
  import opened PyStr

  // ---------------------------------------------------------------------
  // get_chunks
  // ---------------------------------------------------------------------

  /** The concatenation of a list of lists, in order. */
  function Flatten<T>(ss: seq<seq<T>>): seq<T>
    decreases |ss|
  {
    if |ss| == 0 then [] else ss[0] + Flatten(ss[1..])
  }

  lemma {:induction false} FlattenAppend<T>(ss: seq<seq<T>>, s: seq<T>)
    ensures Flatten(ss + [s]) == Flatten(ss) + s
    decreases |ss|
  {
    if |ss| > 0 {
      FlattenAppend(ss[1..], s);
      assert (ss + [s])[1..] == ss[1..] + [s];
    }
  }

  /** The slices `items[i:i + size]` for `i` in `range(0, len(items), size)`,
      for a positive `size`. */
  function Chunks<T>(items: seq<T>, size: nat): (r: seq<seq<T>>)
    requires size >= 1
    ensures Flatten(r) == items
    ensures |items| <= |r| * size < |items| + size
    ensures forall i :: 0 <= i < |r| ==> 0 < |r[i]| <= size
    ensures forall i :: 0 <= i < |r| - 1 ==> |r[i]| == size
    decreases |items|
  {
    if |items| == 0 then []
    else if |items| <= size then [items]
    else
      var rest := Chunks(items[size..], size);
      assert (|rest| + 1) * size == |rest| * size + size;
      assert items[..size] + items[size..] == items;
      [items[..size]] + rest
  }

  /** `get_chunks(items, chunk_size)`. A size of 0 makes `range` raise
      ValueError; a negative size gives an empty `range`, hence no chunks. */
  function GetChunks<T>(items: seq<T>, chunkSize: int): (r: Result<seq<seq<T>>, PyError>)
    ensures chunkSize == 0 <==> r == Failure(ValueError)
    ensures chunkSize < 0 ==> r == Success([])
    ensures chunkSize > 0 ==> r.Success? && Flatten(r.value) == items
    ensures chunkSize > 0 ==> |items| <= |r.value| * chunkSize < |items| + chunkSize
    ensures chunkSize > 0 ==> forall i :: 0 <= i < |r.value| ==> 0 < |r.value[i]| <= chunkSize
    ensures chunkSize > 0 ==> forall i :: 0 <= i < |r.value| - 1 ==> |r.value[i]| == chunkSize
  {
    if chunkSize == 0 then Failure(ValueError)
    else if chunkSize < 0 then Success([])
    else Success(Chunks(items, chunkSize))
  }

  // ---------------------------------------------------------------------
  // clean_field_names (over ASCII; see README for non-ASCII characters)
  // ---------------------------------------------------------------------

  predicate IsAscii(c: char) { c as int < 128 }

  predicate IsAsciiString(s: string) { forall i :: 0 <= i < |s| ==> IsAscii(s[i]) }

  function UpperChar(c: char): char {
    if 'a' <= c <= 'z' then (c as int - 32) as char else c
  }

  /** `str.upper()` on ASCII letters; every other character is kept. */
  function Upper(s: string): string {
    seq(|s|, i requires 0 <= i < |s| => UpperChar(s[i]))
  }

  /** `re.sub(r'[\[\]]+', '', s)`. */
  function DropBrackets(s: string): string
    decreases |s|
  {
    if |s| == 0 then []
    else (if s[0] == '[' || s[0] == ']' then [] else [s[0]]) + DropBrackets(s[1..])
  }

  /** A character `\w` matches: ASCII letters, digits and `_`; characters
      beyond ASCII are treated as word characters. */
  predicate IsWordChar(c: char) {
    ('a' <= c <= 'z') || ('A' <= c <= 'Z') || ('0' <= c <= '9') || c == '_' || !IsAscii(c)
  }

  /** `re.sub(r'[\W]', ' ', s)`. */
  function Blank(s: string): string {
    seq(|s|, i requires 0 <= i < |s| => if IsWordChar(s[i]) then s[i] else ' ')
  }

  /** `re.sub(r'[ ]+', '_', s)`: every run of spaces becomes one `_`. */
  function Underscore(s: string): string
    decreases |s|
  {
    if |s| == 0 then []
    else if s[0] == ' ' then "_" + Underscore(LStrip(s[1..], ' '))
    else [s[0]] + Underscore(s[1..])
  }

  /** The placeholder that protects `%` while non-word characters are blanked. */
  const Placeholder: string := "ZZZ"

  /** Upper-case, drop brackets, and protect `%` as `ZZZ`. */
  function ProtectStage(name: string): string {
    Replace(DropBrackets(Upper(name)), "%", Placeholder)
  }

  /** Blank non-word characters and strip spaces from both ends
      (`.rstrip().strip()`). */
  function BlankStage(p: string): string {
    Strip(RStrip(Blank(p), ' '), ' ')
  }

  /** Turn the placeholder back into `%`. */
  function RestoreStage(b: string): string {
    Replace(b, Placeholder, "%")
  }

  /** Collapse space runs into `_`, then `.strip('_').rstrip('_')`. */
  function FinishStage(x: string): (r: string)
    ensures r == [] || (r[0] != '_' && r[|r| - 1] != '_')
  {
    RStrip(Strip(Underscore(x), '_'), '_')
  }

  /** `clean_field_names(name)`: upper-case, drop brackets, protect `%` as
      `ZZZ`, blank non-word characters and strip the ends, turn `ZZZ` back
      into `%`, collapse space runs into `_` and strip `_` from both ends. */
  function CleanFieldName(name: string): string {
    FinishStage(RestoreStage(BlankStage(ProtectStage(name))))
  }

  /** The characters a cleaned ASCII field name is made of. */
  predicate IsCleanChar(c: char) {
    ('A' <= c <= 'Z') || ('0' <= c <= '9') || c == '_' || c == '%'
  }

  lemma {:induction false} DropBracketsChars(s: string, c: char)
    requires c in DropBrackets(s)
    ensures c in s && c != '[' && c != ']'
    decreases |s|
  {
    if |s| > 0 && !(c == s[0] && s[0] != '[' && s[0] != ']') {
      DropBracketsChars(s[1..], c);
    }
  }

  lemma {:induction false} UnderscoreChars(s: string, c: char)
    requires c in Underscore(s)
    ensures c == '_' || (c in s && c != ' ')
    decreases |s|
  {
    if |s| > 0 {
      if s[0] == ' ' {
        if c != '_' {
          var t := LStrip(s[1..], ' ');
          UnderscoreChars(t, c);
          LStripSuffix(s[1..], ' ');
          assert t == s[1..][|s[1..]| - |t|..];
        }
      } else if c != s[0] {
        UnderscoreChars(s[1..], c);
      }
    }
  }

  lemma StripChars(s: string, c: char, x: char)
    requires x in Strip(s, c)
    ensures x in s
  {
    var i := |s| - |LStrip(s, c)|;
    StripSlice(s, c);
    var k :| 0 <= k < |Strip(s, c)| && Strip(s, c)[k] == x;
    assert s[i + k] == x;
  }

  lemma ProtectStageChars(name: string, c: char)
    requires IsAsciiString(name)
    requires c in ProtectStage(name)
    ensures c != '%' && c != '[' && c != ']' && IsAscii(c) && !('a' <= c <= 'z')
  {
    var unbracketed := DropBrackets(Upper(name));
    ReplaceRemovesChar(unbracketed, '%', Placeholder);
    ReplaceChars(unbracketed, "%", Placeholder, c);
    if c != 'Z' {
      DropBracketsChars(Upper(name), c);
      var j :| 0 <= j < |name| && Upper(name)[j] == c;
      assert IsAscii(name[j]);
    }
  }

  lemma BlankStageChars(p: string, c: char)
    requires c in BlankStage(p)
    ensures c == ' ' || (c in p && IsWordChar(c))
  {
    StripChars(RStrip(Blank(p), ' '), ' ', c);
    RStripPrefix(Blank(p), ' ');
    assert c in Blank(p);
    var k :| 0 <= k < |p| && Blank(p)[k] == c;
  }

  lemma FinishStageChars(x: string, c: char)
    requires c in FinishStage(x)
    ensures c == '_' || (c in x && c != ' ')
  {
    StripChars(Underscore(x), '_', c);
    UnderscoreChars(x, c);
  }

  lemma CleanFieldNameChar(name: string, c: char)
    requires IsAsciiString(name)
    requires c in CleanFieldName(name)
    ensures IsCleanChar(c)
  {
    var protected := ProtectStage(name);
    var blanked := BlankStage(protected);
    var restored := RestoreStage(blanked);
    FinishStageChars(restored, c);
    if c != '_' {
      ReplaceChars(blanked, Placeholder, "%", c);
      if c != '%' {
        BlankStageChars(protected, c);
        ProtectStageChars(name, c);
      }
    }
  }

  /** For ASCII input, the cleaned name consists of `A`-`Z`, `0`-`9`, `_`
      and `%` only (so no spaces), and neither starts nor ends with `_`. */
  lemma CleanFieldNameShape(name: string)
    requires IsAsciiString(name)
    ensures var r := CleanFieldName(name);
      && (forall i :: 0 <= i < |r| ==> IsCleanChar(r[i]))
      && (r == [] || (r[0] != '_' && r[|r| - 1] != '_'))
  {
    var r := CleanFieldName(name);
    forall i | 0 <= i < |r| ensures IsCleanChar(r[i]) {
      CleanFieldNameChar(name, r[i]);
    }
  }

  /** The first character is not a `Z` that starts `Z%` or `ZZZ`. */
  predicate SafeHead(s: string)
    requires |s| > 0
  {
    s[0] == 'Z' && |s| > 1 ==> s[1] != '%' && !(|s| > 2 && s[1] == 'Z' && s[2] == 'Z')
  }

  /** No `ZZZ` and no `Z%` anywhere: the text on which protecting `%` and
      restoring it is the identity. */
  predicate PlaceholderSafe(s: string)
    decreases |s|
  {
    |s| == 0 || (SafeHead(s) && PlaceholderSafe(s[1..]))
  }

  lemma StartsWithPlaceholder(p: string)
    ensures StartsWith(p, Placeholder) <==> |p| >= 3 && p[0] == 'Z' && p[1] == 'Z' && p[2] == 'Z'
  {
    if |p| >= 3 && p[0] == 'Z' && p[1] == 'Z' && p[2] == 'Z' {
      assert p[..3] == Placeholder;
    }
  }

  lemma PlaceholderSafeCons(c: char, x: string)
    ensures PlaceholderSafe([c] + x) <==>
      PlaceholderSafe(x) &&
      (c == 'Z' && |x| > 0 ==> x[0] != '%' && !(|x| > 1 && x[0] == 'Z' && x[1] == 'Z'))
  {
    assert ([c] + x)[1..] == x;
  }

  lemma {:induction false} PlaceholderSafeSuffix(s: string, a: nat)
    requires a <= |s| && PlaceholderSafe(s)
    ensures PlaceholderSafe(s[a..])
    decreases a
  {
    if a > 0 {
      PlaceholderSafeSuffix(s[1..], a - 1);
      assert s[1..][a - 1..] == s[a..];
    }
  }

  lemma {:induction false} PlaceholderSafePrefix(s: string, b: nat)
    requires b <= |s| && PlaceholderSafe(s)
    ensures PlaceholderSafe(s[..b])
    decreases b
  {
    if b > 0 {
      PlaceholderSafePrefix(s[1..], b - 1);
      var t := s[..b];
      assert t[1..] == s[1..][..b - 1];
      assert SafeHead(s);
      assert forall k :: 0 <= k < b ==> t[k] == s[k];
    }
  }

  /** Restoring `%` from `ZZZ` in text without `%` yields placeholder-safe
      text; the facts about its first characters carry the induction. */
  lemma {:induction false} RestoreSafe(w: string)
    requires '%' !in w
    ensures var r := RestoreStage(w);
      && PlaceholderSafe(r)
      && (|r| > 0 && r[0] == '%' ==> StartsWith(w, Placeholder))
      && (|r| > 0 && r[0] == 'Z' ==> |w| > 0 && w[0] == 'Z' && !StartsWith(w, Placeholder))
      && (|r| > 1 && r[0] == 'Z' && r[1] == 'Z' ==> |w| > 1 && w[1] == 'Z')
    decreases |w|
  {
    var r := RestoreStage(w);
    StartsWithPlaceholder(w);
    if |w| == 0 {
    } else if StartsWith(w, Placeholder) {
      var x := RestoreStage(w[3..]);
      RestoreSafe(w[3..]);
      assert r == "%" + x;
      PlaceholderSafeCons('%', x);
    } else {
      var x := RestoreStage(w[1..]);
      RestoreSafe(w[1..]);
      StartsWithPlaceholder(w[1..]);
      assert r == [w[0]] + x;
      PlaceholderSafeCons(w[0], x);
    }
  }

  lemma {:induction false} UnderscoreSafe(w: string)
    requires PlaceholderSafe(w)
    ensures var r := Underscore(w);
      && PlaceholderSafe(r)
      && (|r| > 0 <==> |w| > 0)
      && (|r| > 0 ==> r[0] == (if w[0] == ' ' then '_' else w[0]))
      && (|r| > 1 && w[0] != ' ' ==> |w| > 1 && r[1] == (if w[1] == ' ' then '_' else w[1]))
    decreases |w|
  {
    if |w| > 0 {
      if w[0] == ' ' {
        var t := LStrip(w[1..], ' ');
        LStripSuffix(w[1..], ' ');
        PlaceholderSafeSuffix(w, |w| - |t|);
        assert t == w[|w| - |t|..];
        UnderscoreSafe(t);
        PlaceholderSafeCons('_', Underscore(t));
      } else {
        var x := Underscore(w[1..]);
        PlaceholderSafeSuffix(w, 1);
        UnderscoreSafe(w[1..]);
        PlaceholderSafeCons(w[0], x);
      }
    }
  }

  /** On placeholder-safe text, turning `%` into `ZZZ` and `ZZZ` back into
      `%` is the identity. */
  lemma {:induction false} ProtectRestore(y: string)
    requires PlaceholderSafe(y)
    ensures RestoreStage(Replace(y, "%", Placeholder)) == y
    decreases |y|
  {
    if |y| > 0 {
      var p := Replace(y, "%", Placeholder);
      var p1 := Replace(y[1..], "%", Placeholder);
      ProtectRestore(y[1..]);
      assert [y[0]] + y[1..] == y;
      StartsWithPlaceholder(p);
      if y[0] == '%' {
        assert StartsWith(y, "%");
        assert p == Placeholder + p1;
        assert p[3..] == p1;
      } else {
        assert !StartsWith(y, "%");
        assert p == [y[0]] + p1;
        if y[0] == 'Z' && |y| > 1 {
          var y1 := y[1..];
          assert y1[0] == y[1] && y[1] != '%';
          assert !StartsWith(y1, "%");
          var p2 := Replace(y1[1..], "%", Placeholder);
          assert p1 == [y[1]] + p2;
          if y[1] == 'Z' && |y| > 2 {
            var y2 := y1[1..];
            assert y2[0] == y[2] && y[2] != 'Z' && y[2] != '%';
            assert !StartsWith(y2, "%");
            assert p2 == [y[2]] + Replace(y2[1..], "%", Placeholder);
          }
        }
        assert !StartsWith(p, Placeholder);
      }
    }
  }

  lemma {:induction false} DropBracketsKeeps(s: string)
    requires '[' !in s && ']' !in s
    ensures DropBrackets(s) == s
    decreases |s|
  {
    if |s| > 0 {
      DropBracketsKeeps(s[1..]);
      assert [s[0]] + s[1..] == s;
    }
  }

  lemma {:induction false} UnderscoreKeeps(s: string)
    requires ' ' !in s
    ensures Underscore(s) == s
    decreases |s|
  {
    if |s| > 0 {
      UnderscoreKeeps(s[1..]);
      assert [s[0]] + s[1..] == s;
    }
  }

  lemma PlaceholderSafeRStrip(s: string, c: char)
    requires PlaceholderSafe(s)
    ensures PlaceholderSafe(RStrip(s, c))
  {
    RStripPrefix(s, c);
    PlaceholderSafePrefix(s, |RStrip(s, c)|);
  }

  lemma PlaceholderSafeStrip(s: string, c: char)
    requires PlaceholderSafe(s)
    ensures PlaceholderSafe(Strip(s, c))
  {
    var t := LStrip(s, c);
    LStripSuffix(s, c);
    PlaceholderSafeSuffix(s, |s| - |t|);
    PlaceholderSafeRStrip(t, c);
  }

  lemma FinishStageSafe(x: string)
    requires PlaceholderSafe(x)
    ensures PlaceholderSafe(FinishStage(x))
  {
    UnderscoreSafe(x);
    PlaceholderSafeStrip(Underscore(x), '_');
    PlaceholderSafeRStrip(Strip(Underscore(x), '_'), '_');
  }

  lemma CleanFieldNameSafe(name: string)
    requires IsAsciiString(name)
    ensures PlaceholderSafe(CleanFieldName(name))
  {
    var protected := ProtectStage(name);
    var blanked := BlankStage(protected);
    assert '%' !in blanked by {
      if '%' in blanked {
        BlankStageChars(protected, '%');
        ProtectStageChars(name, '%');
      }
    }
    RestoreSafe(blanked);
    FinishStageSafe(RestoreStage(blanked));
  }

  predicate AllClean(y: string) {
    forall k :: 0 <= k < |y| ==> IsCleanChar(y[k])
  }

  lemma ProtectStageOnClean(y: string)
    requires AllClean(y)
    ensures ProtectStage(y) == Replace(y, "%", Placeholder)
  {
    assert Upper(y) == y;
    assert '[' !in y && ']' !in y by {
      forall k | 0 <= k < |y| ensures y[k] != '[' && y[k] != ']' {
        assert IsCleanChar(y[k]);
      }
    }
    DropBracketsKeeps(y);
  }

  lemma ProtectedWordChars(y: string)
    requires AllClean(y)
    ensures var p := Replace(y, "%", Placeholder);
      forall k :: 0 <= k < |p| ==> IsWordChar(p[k]) && p[k] != ' '
  {
    var p := Replace(y, "%", Placeholder);
    ReplaceRemovesChar(y, '%', Placeholder);
    forall k | 0 <= k < |p| ensures IsWordChar(p[k]) && p[k] != ' ' {
      var c := p[k];
      ReplaceChars(y, "%", Placeholder, c);
      if c in y {
        var j :| 0 <= j < |y| && y[j] == c;
        assert IsCleanChar(y[j]);
      }
    }
  }

  lemma BlankStageKeeps(p: string)
    requires forall k :: 0 <= k < |p| ==> IsWordChar(p[k]) && p[k] != ' '
    ensures BlankStage(p) == p
  {
    assert Blank(p) == p;
  }

  lemma FinishStageKeeps(y: string)
    requires ' ' !in y && (y == [] || (y[0] != '_' && y[|y| - 1] != '_'))
    ensures FinishStage(y) == y
  {
    UnderscoreKeeps(y);
  }

  /** `clean_field_names` is idempotent on ASCII input: a cleaned name is
      its own cleaned form. */
  lemma CleanFieldNameIdempotent(name: string)
    requires IsAsciiString(name)
    ensures CleanFieldName(CleanFieldName(name)) == CleanFieldName(name)
  {
    var y := CleanFieldName(name);
    CleanFieldNameShape(name);
    assert AllClean(y);
    assert ' ' !in y by {
      forall k | 0 <= k < |y| ensures y[k] != ' ' {
        assert IsCleanChar(y[k]);
      }
    }
    var p := Replace(y, "%", Placeholder);
    ProtectStageOnClean(y);
    ProtectedWordChars(y);
    BlankStageKeeps(p);
    CleanFieldNameSafe(name);
    ProtectRestore(y);
    FinishStageKeeps(y);
    assert ProtectStage(y) == p;
    assert BlankStage(p) == p;
    assert RestoreStage(p) == y;
    assert FinishStage(y) == y;
  }

  /** A single space between a space-free word and the rest becomes `_`. */
  lemma {:induction false} UnderscoreSplit(a: string, b: string)
    requires ' ' !in a && (b == [] || b[0] != ' ')
    ensures Underscore(a + " " + b) == a + "_" + Underscore(b)
    decreases |a|
  {
    if |a| == 0 {
      assert a + " " + b == " " + b;
      assert (" " + b)[1..] == b;
      assert LStrip(b, ' ') == b;
    } else {
      assert (a + " " + b)[1..] == a[1..] + " " + b;
      UnderscoreSplit(a[1..], b);
      assert [a[0]] + (a[1..] + "_" + Underscore(b)) == a + "_" + Underscore(b);
    }
  }

  // The two documented examples. Each stage is a lemma of its own: with all
  // stages in one context the solver unfolds the string functions on the
  // literals far too often.

  /** A text's only `%`, at its front, becomes the placeholder. */
  lemma ProtectLeadingPercent(t: string)
    requires '%' !in t
    ensures Replace("%" + t, "%", Placeholder) == Placeholder + t
  {
    ReplaceFront("%", t, Placeholder);
    ReplaceSkip(t, [], "%", Placeholder);
    assert t + [] == t;
  }

  /** A leading placeholder, and no other `Z`, becomes `%` again. */
  lemma RestoreLeadingPlaceholder(t: string)
    requires 'Z' !in t
    ensures Replace(Placeholder + t, Placeholder, "%") == "%" + t
  {
    ReplaceFront(Placeholder, t, "%");
    ReplaceSkip(t, [], Placeholder, "%");
    assert t + [] == t;
  }

  lemma PercentProtect(name: string)
    requires name == "% of total"
    ensures ProtectStage(name) == "ZZZ OF TOTAL"
  {
    var t := " OF TOTAL";
    assert Upper(name) == "%" + t by {
      forall i | 0 <= i < |name| ensures Upper(name)[i] == ("%" + t)[i] { }
    }
    assert '%' !in t && '[' !in t && ']' !in t;
    ProtectPercentFirst(name, t);
    assert Placeholder + t == "ZZZ OF TOTAL";
  }

  /** A name that upper-cases to `%` followed by a text without `%` or
      brackets has its `%` protected and is otherwise kept. */
  lemma ProtectPercentFirst(name: string, t: string)
    requires Upper(name) == "%" + t && '%' !in t && '[' !in t && ']' !in t
    ensures ProtectStage(name) == Placeholder + t
  {
    var u := Upper(name);
    assert DropBrackets(u) == u by {
      DropBracketsKeeps(u);
    }
    ProtectLeadingPercent(t);
  }

  lemma PercentBlank(p: string)
    requires p == "ZZZ OF TOTAL"
    ensures BlankStage(p) == p
  {
    assert Blank(p) == p;
    assert RStrip(p, ' ') == p;
    assert LStrip(p, ' ') == p;
  }

  lemma PercentRestore(p: string)
    requires p == "ZZZ OF TOTAL"
    ensures RestoreStage(p) == "% OF TOTAL"
  {
    var t := p[3..];
    assert Placeholder + t == p;
    RestoreLeadingPlaceholder(t);
  }

  lemma PercentFinish(u: string)
    requires u == "% OF TOTAL"
    ensures FinishStage(u) == "%_OF_TOTAL"
  {
    assert u == "%" + " " + "OF" + " " + "TOTAL";
    FinishThreeWords("%", "OF", "TOTAL");
    assert "%" + "_" + "OF" + "_" + "TOTAL" == "%_OF_TOTAL";
  }

  /** Three words without spaces, joined by single spaces, are joined by
      `_` instead. */
  lemma FinishThreeWords(a: string, b: string, c: string)
    requires ' ' !in a && ' ' !in b && ' ' !in c
    requires |a| > 0 && |b| > 0 && |c| > 0 && a[0] != '_' && c[|c| - 1] != '_'
    ensures FinishStage(a + " " + b + " " + c) == a + "_" + b + "_" + c
  {
    assert a + " " + b + " " + c == a + " " + (b + " " + c);
    UnderscoreSplit(a, b + " " + c);
    UnderscoreSplit(b, c);
    UnderscoreKeeps(c);
    var r := a + "_" + (b + "_" + c);
    assert r == a + "_" + b + "_" + c;
    assert r[0] == a[0] && r[|r| - 1] == c[|c| - 1];
    assert LStrip(r, '_') == r;
    assert RStrip(r, '_') == r;
  }

  /** The `%` placeholder at work: "% of total" keeps its percent sign. */
  lemma CleanFieldNamePercent(name: string)
    requires name == "% of total"
    ensures CleanFieldName(name) == "%_OF_TOTAL"
  {
    var p := ProtectStage(name);
    PercentProtect(name);
    PercentBlank(p);
    PercentRestore(p);
    PercentFinish(RestoreStage(p));
  }

  /** A name without brackets or `%` once upper-cased passes the first
      stage unchanged apart from upper-casing. */
  lemma PlainProtect(name: string, u: string)
    requires Upper(name) == u && '[' !in u && ']' !in u && '%' !in u
    ensures ProtectStage(name) == u
  {
    DropBracketsKeeps(u);
    ReplaceSkip(u, [], "%", Placeholder);
    assert u + [] == u;
  }

  lemma ZzzProtect(name: string)
    requires name == "pizzza"
    ensures ProtectStage(name) == "PIZZZA"
  {
    var u := "PIZZZA";
    assert Upper(name) == u by {
      forall i | 0 <= i < |name| ensures Upper(name)[i] == u[i] { }
    }
    PlainProtect(name, u);
  }

  lemma ZzzRestore(u: string)
    requires u == "PIZZZA"
    ensures BlankStage(u) == u
    ensures RestoreStage(u) == "PI%A"
  {
    BlankStageKeeps(u);
    ReplaceSkip("PI", Placeholder + "A", Placeholder, "%");
    ReplaceFront(Placeholder, "A", "%");
    ReplaceSkip("A", [], Placeholder, "%");
    assert "A" + [] == "A";
    assert "PI" + (Placeholder + "A") == u;
  }

  lemma ZzzFinish(r: string)
    requires r == "PI%A"
    ensures FinishStage(r) == r
  {
    FinishStageKeeps(r);
  }

  /** The placeholder quirk: a literal `ZZZ` in a name also becomes `%`. */
  lemma CleanFieldNameZzz(name: string)
    requires name == "pizzza"
    ensures CleanFieldName(name) == "PI%A"
  {
    var u := ProtectStage(name);
    ZzzProtect(name);
    ZzzRestore(u);
    ZzzFinish(RestoreStage(u));
  }

  // ---------------------------------------------------------------------
  // extract_name
  // ---------------------------------------------------------------------

  predicate IsPathSep(c: char) { c == '/' || c == '\\' }

  /** `re.sub(r'[/\\]+', '%', s)`: every run of path separators becomes a
      single `%`. Defined from the end of the text so that appending is easy
      to reason about. */
  function CollapseSeps(s: string): string
    decreases |s|
  {
    if |s| == 0 then []
    else
      var init, last := s[..|s| - 1], s[|s| - 1];
      if !IsPathSep(last) then CollapseSeps(init) + [last]
      else if |init| > 0 && IsPathSep(init[|init| - 1]) then CollapseSeps(init)
      else CollapseSeps(init) + "%"
  }

  /** `s.rindex(c)`, with None where Python raises ValueError. */
  function RIndex(s: string, c: char): (r: Option<nat>)
    ensures r.Some? ==> r.value < |s| && s[r.value] == c && c !in s[r.value + 1..]
    ensures r.None? ==> c !in s
    decreases |s|
  {
    if |s| == 0 then None
    else if s[|s| - 1] == c then Some(|s| - 1)
    else
      var r := RIndex(s[..|s| - 1], c);
      assert s == s[..|s| - 1] + [s[|s| - 1]];
      r
  }

  /** `extract_name(fname)`: the text after the last separator (or `%`) and
      before the last `.`; empty when that dot comes first. */
  function ExtractName(fname: string): string {
    ExtractFrom(CollapseSeps(fname))
  }

  /** The slice of a collapsed name between its last `%` and its last `.`. */
  function ExtractFrom(s: string): string {
    var start := match RIndex(s, '%') case Some(i) => i + 1 case None => 0;
    var end := match RIndex(s, '.') case Some(j) => j case None => |s|;
    if start <= end then s[start..end] else []
  }

  lemma {:induction false} CollapseSepsNoSep(s: string)
    ensures forall c :: c in CollapseSeps(s) ==> !IsPathSep(c)
    decreases |s|
  {
    if |s| > 0 {
      CollapseSepsNoSep(s[..|s| - 1]);
    }
  }

  lemma {:induction false} CollapseSepsAppend(d: string, rest: string)
    requires forall c :: c in rest ==> !IsPathSep(c)
    ensures CollapseSeps(d + rest) == CollapseSeps(d) + rest
    decreases |rest|
  {
    if |rest| > 0 {
      var init := rest[..|rest| - 1];
      CollapseSepsAppend(d, init);
      assert rest[|rest| - 1] in rest;
      assert (d + rest)[|d + rest| - 1] == rest[|rest| - 1];
      assert (d + rest)[..|d + rest| - 1] == d + init;
      assert CollapseSeps(d + rest) == CollapseSeps(d + init) + [rest[|rest| - 1]];
      assert CollapseSeps(d) + init + [rest[|rest| - 1]] == CollapseSeps(d) + rest;
      assert init + [rest[|rest| - 1]] == rest;
    } else {
      assert d + rest == d;
    }
  }

  lemma {:induction false} CollapseSepsEndsWithSep(s: string)
    requires |s| > 0 && IsPathSep(s[|s| - 1])
    ensures var c := CollapseSeps(s); |c| > 0 && c[|c| - 1] == '%'
    decreases |s|
  {
    var init := s[..|s| - 1];
    if |init| > 0 && IsPathSep(init[|init| - 1]) {
      CollapseSepsEndsWithSep(init);
    }
  }

  /** The extracted name never contains `/`, `\` or `%`. */
  lemma ExtractNameChars(fname: string)
    ensures var r := ExtractName(fname); '/' !in r && '\\' !in r && '%' !in r
  {
    var s := CollapseSeps(fname);
    CollapseSepsNoSep(fname);
    var r := ExtractName(fname);
    if r != [] {
      var start := match RIndex(s, '%') case Some(i) => i + 1 case None => 0;
      var end := match RIndex(s, '.') case Some(j) => j case None => |s|;
      assert r == s[start..end];
      assert forall c :: c in r ==> c in s;
    }
  }

  lemma RIndexAt(s: string, c: char, p: nat)
    requires p < |s| && s[p] == c
    requires forall k :: p < k < |s| ==> s[k] != c
    ensures RIndex(s, c) == Some(p)
  {
  }

  /** Where the last `%` and the last `.` of the collapsed path fall. */
  lemma ExtractFromBetween(s: string, p: nat, q: nat)
    requires p < q < |s| && s[p] == '%' && s[q] == '.'
    requires forall k :: p < k < |s| ==> s[k] != '%'
    requires forall k :: q < k < |s| ==> s[k] != '.'
    ensures ExtractFrom(s) == s[p + 1..q]
  {
    RIndexAt(s, '%', p);
    RIndexAt(s, '.', q);
  }

  lemma BaseExtChars(base: string, ext: string)
    requires forall c :: c in base ==> !IsPathSep(c) && c != '%'
    requires forall c :: c in ext ==> !IsPathSep(c) && c != '%' && c != '.'
    ensures var rest := base + "." + ext;
      forall i :: 0 <= i < |rest| ==> rest[i] != '%' && !IsPathSep(rest[i])
  {
    var rest := base + "." + ext;
    forall i | 0 <= i < |rest| ensures rest[i] != '%' && !IsPathSep(rest[i]) {
      if i < |base| {
        assert rest[i] == base[i] && base[i] in base;
      } else if i == |base| {
        assert rest[i] == '.';
      } else {
        assert rest[i] == ext[i - |base| - 1] && ext[i - |base| - 1] in ext;
      }
    }
  }

  /** For `dir/base.ext`, where the base has no separator or `%` and the
      extension has none of these and no dot, the name is the base. */
  lemma ExtractNameOfPath(dir: string, sep: char, base: string, ext: string)
    requires IsPathSep(sep)
    requires forall c :: c in base ==> !IsPathSep(c) && c != '%'
    requires forall c :: c in ext ==> !IsPathSep(c) && c != '%' && c != '.'
    ensures ExtractName(dir + [sep] + base + "." + ext) == base
  {
    var rest := base + "." + ext;
    BaseExtChars(base, ext);
    var fname := dir + [sep] + base + "." + ext;
    assert fname == (dir + [sep]) + rest;
    assert forall c :: c in rest ==> !IsPathSep(c);
    CollapseSepsAppend(dir + [sep], rest);
    CollapseSepsEndsWithSep(dir + [sep]);
    ExtractNameAfterSep(CollapseSeps(fname), CollapseSeps(dir + [sep]), base, ext);
  }

  /** Once the separators are collapsed, a name that is some text ending in
      `%` followed by `base.ext` extracts to `base`. */
  lemma ExtractNameAfterSep(s: string, h: string, base: string, ext: string)
    requires s == h + (base + "." + ext) && |h| > 0 && h[|h| - 1] == '%'
    requires forall c :: c in base ==> c != '%'
    requires forall c :: c in ext ==> c != '%' && c != '.'
    ensures ExtractFrom(s) == base
  {
    var p := |h| - 1;
    var q := |h| + |base|;
    AfterSepIndices(s, h, base, ext);
    ExtractFromBetween(s, p, q);
  }

  /** Where `%`, `base`, `.` and `ext` sit in `h + base.ext`. */
  lemma AfterSepIndices(s: string, h: string, base: string, ext: string)
    requires s == h + (base + "." + ext) && |h| > 0 && h[|h| - 1] == '%'
    requires forall c :: c in base ==> c != '%'
    requires forall c :: c in ext ==> c != '%' && c != '.'
    ensures var p, q := |h| - 1, |h| + |base|;
      && p < q < |s| && s[p] == '%' && s[q] == '.' && s[p + 1..q] == base
      && (forall k :: p < k < |s| ==> s[k] != '%')
      && (forall k :: q < k < |s| ==> s[k] != '.')
  {
    var p := |h| - 1;
    var q := |h| + |base|;
    forall k | p < k < |s| ensures s[k] != '%' {
      if k < q {
        assert s[k] == base[k - p - 1] && base[k - p - 1] in base;
      } else if k > q {
        assert s[k] == ext[k - q - 1] && ext[k - q - 1] in ext;
      }
    }
    forall k | q < k < |s| ensures s[k] != '.' {
      assert s[k] == ext[k - q - 1] && ext[k - q - 1] in ext;
    }
    assert s[p + 1..q] == base;
  }

  /** When the last dot lies in the directory part, before the last
      separator, the name is empty: `"dir.v2/file"` gives `""`. */
  lemma ExtractNameDotInDirectory(dir: string, sep: char, file: string)
    requires IsPathSep(sep) && '.' in dir
    requires forall c :: c in dir ==> !IsPathSep(c) && c != '%'
    requires forall c :: c in file ==> !IsPathSep(c) && c != '%' && c != '.'
    ensures ExtractName(dir + [sep] + file) == ""
  {
    CollapseSepsAppend([], dir);
    assert [] + dir == dir;
    assert (dir + [sep])[..|dir|] == dir;
    assert dir[|dir| - 1] in dir;
    var h := CollapseSeps(dir + [sep]);
    assert h == dir + "%";
    CollapseSepsAppend(dir + [sep], file);
    assert dir + [sep] + file == (dir + [sep]) + file;
    ExtractFromDotFirst(CollapseSeps(dir + [sep] + file), dir, file);
  }

  /** A collapsed name whose last `.` comes before its last `%` extracts to
      the empty name. */
  lemma ExtractFromDotFirst(s: string, dir: string, file: string)
    requires s == dir + "%" + file && '.' in dir && '%' !in dir
    requires forall c :: c in file ==> c != '%' && c != '.'
    ensures ExtractFrom(s) == ""
  {
    assert s[|dir|] == '%';
    var i := RIndex(s, '%');
    assert i.Some? && i.value >= |dir|;
    var k :| 0 <= k < |dir| && dir[k] == '.';
    assert s[k] == '.';
    var j := RIndex(s, '.');
    assert j.Some? && j.value < |dir| by {
      forall m | |dir| <= m < |s| ensures s[m] != '.' {
        if m > |dir| {
          assert s[m] == file[m - |dir| - 1] && file[m - |dir| - 1] in file;
        }
      }
    }
  }

  // ---------------------------------------------------------------------
  // get_id
  // ---------------------------------------------------------------------

  /** A server object as `get_id` sees it: its id and its name. */
  datatype ServerObject = ServerObject(id: string, name: string)

  /** What `get_id` returns: the id→name dict (`return_all=True`) or a single
      id, None for an empty list. */
  datatype IdLookup = IdMap(ids: map<string, string>) | FirstId(id: Option<string>)

  /** id→name for the objects whose name contains `objName`; a later object
      with the same id overwrites an earlier one. */
  function MatchingIds(objs: seq<ServerObject>, objName: string): map<string, string>
    decreases |objs|
  {
    if |objs| == 0 then map[]
    else
      var m := MatchingIds(objs[..|objs| - 1], objName);
      var o := objs[|objs| - 1];
      if Contains(o.name, objName) then m[o.id := o.name] else m
  }

  /** `objs[j]` is the last object whose id is `k` and whose name contains
      `objName`. */
  ghost predicate LastMatch(objs: seq<ServerObject>, objName: string, k: string, j: int) {
    && 0 <= j < |objs| && objs[j].id == k && Contains(objs[j].name, objName)
    && forall j' :: j < j' < |objs| ==> !(objs[j'].id == k && Contains(objs[j'].name, objName))
  }

  /** A key of the id map is the id of a matching object, and its value is
      the name of the last matching object with that id; every matching
      object's id is a key. */
  lemma {:induction false} MatchingIdsSpec(objs: seq<ServerObject>, objName: string)
    ensures var m := MatchingIds(objs, objName);
      && (forall i :: 0 <= i < |objs| && Contains(objs[i].name, objName) ==> objs[i].id in m)
      && (forall k :: k in m ==> exists j :: LastMatch(objs, objName, k, j) && m[k] == objs[j].name)
    decreases |objs|
  {
    if |objs| > 0 {
      var init := objs[..|objs| - 1];
      MatchingIdsSpec(init, objName);
      var m := MatchingIds(objs, objName);
      var o := objs[|objs| - 1];
      forall k | k in m
        ensures exists j :: LastMatch(objs, objName, k, j) && m[k] == objs[j].name
      {
        if k == o.id && Contains(o.name, objName) {
          assert objs[|objs| - 1].id == k;
        } else {
          var j :| LastMatch(init, objName, k, j) && MatchingIds(init, objName)[k] == init[j].name;
          assert objs[j] == init[j];
          assert LastMatch(objs, objName, k, j);
        }
      }
    }
  }

  /** `get_id(objs_to_search, obj_name, return_all)`. */
  method GetId(objs: seq<ServerObject>, objName: string, returnAll: bool) returns (r: IdLookup)
    ensures returnAll ==> r == IdMap(MatchingIds(objs, objName))
    ensures !returnAll ==> r == FirstId(if |objs| == 0 then None else Some(objs[0].id))
  {
    var objId: map<string, string> := map[];
    var obj1: Option<string> := None;
    var i := 0;
    while i < |objs|
      invariant 0 <= i <= |objs|
      invariant objId == MatchingIds(objs[..i], objName)
      invariant obj1 == if i == 0 then None else Some(objs[0].id)
    {
      var obj := objs[i];
      assert objs[..i + 1][..i] == objs[..i];
      if Contains(obj.name, objName) {
        objId := objId[obj.id := obj.name];
      }
      if obj1.None? {
        obj1 := Some(obj.id);
      }
      i := i + 1;
    }
    assert objs[..i] == objs;
    if returnAll {
      return IdMap(objId);
    }
    return FirstId(obj1);
  }
}

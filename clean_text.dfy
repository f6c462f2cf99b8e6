/** clean_tekst: the normaliser that removes leftovers of RTF formatting
    from a technician's note. Two anchored substitutions and a strip, each
    modelled as an explicit function on `string` beside a predicate that
    says which prefixes its pattern matches. */
module CleanText {
  import opened Wrappers
  import opened Json

  /** Python's `str.isspace`, which is also the class `\s` matches in a
      `str` pattern, so one predicate serves `\s` and `strip()`. */
  predicate IsSpace(c: char) {
    || ('\t' <= c <= '\r')
    || ('\U{1C}' <= c <= '\U{1F}')
    || c == ' ' || c == '\U{85}' || c == '\U{A0}' || c == '\U{1680}'
    || ('\U{2000}' <= c <= '\U{200A}')
    || c == '\U{2028}' || c == '\U{2029}' || c == '\U{202F}' || c == '\U{205F}' || c == '\U{3000}'
  }

  /** The class `[A-Za-z;]` */
  predicate IsFontTableChar(c: char) {
    'A' <= c <= 'Z' || 'a' <= c <= 'z' || c == ';'
  }

  /** The class `[A-Z]` */
  predicate IsAsciiUpper(c: char) {
    'A' <= c <= 'Z'
  }

  /** The number of consecutive characters of `s` satisfying `p`, from `from` on. */
  function Run(s: string, from: nat, p: char -> bool): (n: nat)
    requires from <= |s|
    ensures from + n <= |s|
    decreases |s| - from
  {
    if from == |s| || !p(s[from]) then 0 else 1 + Run(s, from + 1, p)
  }

  /** Run is the longest run: every character in it satisfies `p`, the next one does not. */
  lemma {:induction false} RunIsMaximal(s: string, from: nat, p: char -> bool)
    requires from <= |s|
    ensures forall i :: from <= i < from + Run(s, from, p) ==> p(s[i])
    ensures from + Run(s, from, p) < |s| ==> !p(s[from + Run(s, from, p)])
    decreases |s| - from
  {
    if from < |s| && p(s[from]) {
      RunIsMaximal(s, from + 1, p);
    }
  }

  /** The number of consecutive whitespace characters of `s[lo..hi]` that end at `hi`. */
  function SpacesBefore(s: string, lo: nat, hi: nat): (n: nat)
    requires lo <= hi <= |s|
    ensures n <= hi - lo
    decreases hi - lo
  {
    if hi == lo || !IsSpace(s[hi - 1]) then 0 else 1 + SpacesBefore(s, lo, hi - 1)
  }

  lemma {:induction false} SpacesBeforeIsMaximal(s: string, lo: nat, hi: nat)
    requires lo <= hi <= |s|
    ensures forall i :: hi - SpacesBefore(s, lo, hi) <= i < hi ==> IsSpace(s[i])
    ensures lo < hi - SpacesBefore(s, lo, hi) ==> !IsSpace(s[hi - SpacesBefore(s, lo, hi) - 1])
    decreases hi - lo
  {
    if lo < hi && IsSpace(s[hi - 1]) {
      SpacesBeforeIsMaximal(s, lo, hi - 1);
    }
  }

  /** The largest index `k` with `1 <= k < n` and `s[k] == ';'`. */
  function LastSemicolon(s: string, n: nat): (k: Option<nat>)
    requires n <= |s|
    ensures k.Some? ==> 1 <= k.value < n && s[k.value] == ';'
    decreases n
  {
    if n <= 1 then None
    else if s[n - 1] == ';' then Some(n - 1)
    else LastSemicolon(s, n - 1)
  }

  lemma {:induction false} LastSemicolonIsLast(s: string, n: nat)
    requires n <= |s|
    ensures LastSemicolon(s, n).Some? ==> forall i :: LastSemicolon(s, n).value < i < n ==> s[i] != ';'
    ensures LastSemicolon(s, n).None? ==> forall i :: 1 <= i < n ==> s[i] != ';'
    decreases n
  {
    if n > 1 && s[n - 1] != ';' {
      LastSemicolonIsLast(s, n - 1);
    }
  }

  // ---------------------------------------------------------------------
  // re.sub(r'^[A-Za-z;]+;\s*\n*', '', s)
  // ---------------------------------------------------------------------

  /** `s[..m]` is in the language of `[A-Za-z;]+;\s*\n*`, split as the run
      `s[..k]`, the `;` at `k`, the whitespace `s[k+1..j]` and the newlines
      `s[j..m]`. */
  ghost predicate FontTableMatch(s: string, k: nat, j: nat, m: nat) {
    && 1 <= k < j <= m <= |s|
    && (forall i :: 0 <= i < k ==> IsFontTableChar(s[i]))
    && s[k] == ';'
    && (forall i :: k < i < j ==> IsSpace(s[i]))
    && (forall i :: j <= i < m ==> s[i] == '\n')
  }

  /** The length of the match that Python's backtracking matcher finds: the
      greedy `[A-Za-z;]+` takes the whole leading run and gives characters back
      until the next one is a `;` (at index 1 or later, since the run needs one
      character); `\s*` then takes every whitespace character, leaving nothing
      for `\n*`, a newline being whitespace. */
  function FontTableMatchLength(s: string): (m: Option<nat>)
    ensures m.Some? ==> 2 <= m.value <= |s|
  {
    match LastSemicolon(s, Run(s, 0, IsFontTableChar))
    case None => None
    case Some(k) => Some(k + 1 + Run(s, k + 1, IsSpace))
  }

  /** The first substitution: delete the matched font-table prefix, if any. */
  function StripFontTable(s: string): (r: string)
    ensures |r| <= |s| && r == s[|s| - |r|..]
  {
    match FontTableMatchLength(s)
    case None => s
    case Some(m) => s[m..]
  }

  /** The match found is the longest prefix of `s` in the pattern's language,
      and there is none when the substitution leaves `s` alone. */
  lemma {:induction false} FontTableMatchIsLongest(s: string)
    ensures FontTableMatchLength(s).Some? ==>
              exists k :: FontTableMatch(s, k, FontTableMatchLength(s).value, FontTableMatchLength(s).value)
    ensures forall k: nat, j: nat, m: nat :: FontTableMatch(s, k, j, m) ==>
              FontTableMatchLength(s).Some? && m <= FontTableMatchLength(s).value
  {
    var run := Run(s, 0, IsFontTableChar);
    RunIsMaximal(s, 0, IsFontTableChar);
    LastSemicolonIsLast(s, run);
    if FontTableMatchLength(s).Some? {
      var k := LastSemicolon(s, run).value;
      var n := FontTableMatchLength(s).value;
      RunIsMaximal(s, k + 1, IsSpace);
      assert FontTableMatch(s, k, n, n);
    }
    forall k: nat, j: nat, m: nat | FontTableMatch(s, k, j, m)
      ensures FontTableMatchLength(s).Some? && m <= FontTableMatchLength(s).value
    {
      // the `;` at k belongs to the run, so the run reaches past k
      assert k < run;
      var last := LastSemicolon(s, run);
      assert last.Some? && k <= last.value;
      if k < last.value {
        // s[last] is a `;`, not whitespace, so the match ends before it
        assert !IsSpace(s[last.value]);
        assert m <= last.value;
      } else {
        var w := Run(s, k + 1, IsSpace);
        RunIsMaximal(s, k + 1, IsSpace);
        assert m <= k + 1 + w;
      }
    }
  }

  /** The substitution removes exactly the longest matching prefix, and
      leaves every string without a match unchanged. */
  lemma StripFontTableRemovesLongestMatch(s: string)
    ensures (forall k: nat, j: nat, m: nat :: !FontTableMatch(s, k, j, m)) ==> StripFontTable(s) == s
    ensures (exists k: nat, j: nat, m: nat :: FontTableMatch(s, k, j, m)) ==>
              exists k: nat, m: nat :: FontTableMatch(s, k, m, m) && StripFontTable(s) == s[m..] &&
                forall k': nat, j': nat, m': nat :: FontTableMatch(s, k', j', m') ==> m' <= m
  {
    FontTableMatchIsLongest(s);
    if FontTableMatchLength(s).Some? {
      var n := FontTableMatchLength(s).value;
      var k :| FontTableMatch(s, k, n, n);
    }
  }

  /** A leading letter/semicolon run with no `;` after its first character
      leaves the text alone. */
  lemma NoSemicolonInRunUnchanged(s: string)
    requires forall i :: 1 <= i < |s| && (forall h :: 0 <= h <= i ==> IsFontTableChar(s[h])) ==> s[i] != ';'
    ensures StripFontTable(s) == s
  {
    FontTableMatchIsLongest(s);
  }

  // ---------------------------------------------------------------------
  // re.sub(r'^\s*d([A-Z])', r'\1', s)
  // ---------------------------------------------------------------------

  /** `s` starts with a match of `\s*d([A-Z])` whose whitespace is `s[..w]`. */
  ghost predicate LeadingDMatch(s: string, w: nat) {
    && w + 1 < |s|
    && (forall i :: 0 <= i < w ==> IsSpace(s[i]))
    && s[w] == 'd'
    && IsAsciiUpper(s[w + 1])
  }

  /** The second substitution: the whitespace and the `d` go, the capital
      letter (group 1) stays. The greedy `\s*` never has to give a character
      back, since `d` is not whitespace. */
  function StripLeadingD(s: string): (r: string)
    ensures |r| <= |s| && r == s[|s| - |r|..]
  {
    var w := Run(s, 0, IsSpace);
    if w + 1 < |s| && s[w] == 'd' && IsAsciiUpper(s[w + 1]) then s[w + 1..] else s
  }

  /** Both directions: a match makes the text start at its capital letter,
      and without a match the text is unchanged. */
  lemma {:induction false} StripLeadingDSpec(s: string)
    ensures forall w :: LeadingDMatch(s, w) ==> StripLeadingD(s) == s[w + 1..]
    ensures (forall w :: !LeadingDMatch(s, w)) ==> StripLeadingD(s) == s
    ensures StripLeadingD(s) != s ==> exists w :: LeadingDMatch(s, w)
  {
    var n := Run(s, 0, IsSpace);
    RunIsMaximal(s, 0, IsSpace);
    forall w | LeadingDMatch(s, w) ensures w == n {
    }
    if StripLeadingD(s) != s {
      assert LeadingDMatch(s, n);
    }
  }

  // ---------------------------------------------------------------------
  // str.strip()
  // ---------------------------------------------------------------------

  /** No whitespace at either end. */
  predicate IsStripped(r: string) {
    r == [] || (!IsSpace(r[0]) && !IsSpace(r[|r| - 1]))
  }

  /** `s[i..j]` is `s` with whitespace removed from both ends. */
  ghost predicate StripCut(s: string, i: nat, j: nat) {
    && i <= j <= |s|
    && (forall h :: 0 <= h < i ==> IsSpace(s[h]))
    && (forall h :: j <= h < |s| ==> IsSpace(s[h]))
    && IsStripped(s[i..j])
  }

  /** `s.strip()` */
  function Strip(s: string): (r: string)
    ensures |r| <= |s|
  {
    var i := Run(s, 0, IsSpace);
    s[i..|s| - SpacesBefore(s, i, |s|)]
  }

  /** strip() gives the one substring of `s` that leaves only whitespace
      around it and has none at its ends. */
  lemma {:induction false} StripSpec(s: string)
    ensures exists i: nat, j: nat :: StripCut(s, i, j) && Strip(s) == s[i..j]
    ensures forall i: nat, j: nat :: StripCut(s, i, j) ==> s[i..j] == Strip(s)
  {
    var a := Run(s, 0, IsSpace);
    var b := |s| - SpacesBefore(s, a, |s|);
    RunIsMaximal(s, 0, IsSpace);
    SpacesBeforeIsMaximal(s, a, |s|);
    assert StripCut(s, a, b);
    forall i: nat, j: nat | StripCut(s, i, j) ensures s[i..j] == Strip(s) {
      if i < j {
        assert !IsSpace(s[i]) && !IsSpace(s[j - 1]);
        assert i == a;
        assert j == b;
      } else {
        // only whitespace: strip() leaves the empty string
        assert a == |s|;
      }
    }
  }

  // ---------------------------------------------------------------------
  // clean_tekst
  // ---------------------------------------------------------------------

  /** `clean_tekst(v)`: `""` for a missing value, otherwise the two
      substitutions in order, then strip(). */
  function CleanTekst(v: Scalar): (r: string)
    ensures v.Null? || v.NaN? ==> r == ""
    ensures v.Str? ==> |r| <= |v.s|
  {
    match v
    case Null => ""
    case NaN => ""
    case Str(s) => Strip(StripLeadingD(StripFontTable(s)))
  }

  /** The cleaned text has no whitespace at either end. */
  lemma CleanTekstIsStripped(v: Scalar)
    ensures IsStripped(CleanTekst(v))
  {
    if v.Str? {
      StripSpec(StripLeadingD(StripFontTable(v.s)));
    }
  }

  /** The cleaned text is a piece of the original, cut out in one piece. */
  lemma CleanTekstIsSubstring(s: string)
    ensures exists i: nat, j: nat :: i <= j <= |s| && CleanTekst(Str(s)) == s[i..j]
  {
    var i, j := CleanTekstBounds(s);
  }

  /** Where the cleaned text sits in the original. */
  lemma CleanTekstBounds(s: string) returns (i: nat, j: nat)
    ensures i <= j <= |s| && CleanTekst(Str(s)) == s[i..j]
  {
    var t1 := StripFontTable(s);
    var t2 := StripLeadingD(t1);
    var a, b := StripBounds(t2);
    i, j := PieceOfSuffixes(s, t1, t2, a, b, CleanTekst(Str(s)));
  }

  /** strip() returns a slice of its argument. */
  lemma StripBounds(t: string) returns (i: nat, j: nat)
    ensures i <= j <= |t| && Strip(t) == t[i..j]
  {
    i := Run(t, 0, IsSpace);
    j := |t| - SpacesBefore(t, i, |t|);
  }

  /** A slice of a suffix of a suffix of `s` is a slice of `s`. */
  lemma PieceOfSuffixes(s: string, t1: string, t2: string, a: nat, b: nat, r: string) returns (i: nat, j: nat)
    requires |t1| <= |s| && t1 == s[|s| - |t1|..]
    requires |t2| <= |t1| && t2 == t1[|t1| - |t2|..]
    requires a <= b <= |t2| && r == t2[a..b]
    ensures i <= j <= |s| && r == s[i..j]
  {
    var c := |s| - |t2|;
    assert t2 == s[c..];
    i, j := c + a, c + b;
    assert r == s[i..j];
  }

  /** strip() leaves a text alone that has no whitespace at its ends. */
  lemma StrippedUnchanged(s: string)
    requires IsStripped(s)
    ensures Strip(s) == s
  {
  }

  /** The font list "Arial;Symbol;" goes, with the line break after it. */
  lemma FontListPrefix()
    ensures StripFontTable("Arial;Symbol;\nHallo") == "Hallo"
  {
    var s := "Arial;Symbol;\n" + "Hallo";
    assert Run(s, 13, IsFontTableChar) == 0;
    assert Run(s, 12, IsFontTableChar) == 1;
    assert Run(s, 11, IsFontTableChar) == 2;
    assert Run(s, 10, IsFontTableChar) == 3;
    assert Run(s, 9, IsFontTableChar) == 4;
    assert Run(s, 8, IsFontTableChar) == 5;
    assert Run(s, 7, IsFontTableChar) == 6;
    assert Run(s, 6, IsFontTableChar) == 7;
    assert Run(s, 5, IsFontTableChar) == 8;
    assert Run(s, 4, IsFontTableChar) == 9;
    assert Run(s, 3, IsFontTableChar) == 10;
    assert Run(s, 2, IsFontTableChar) == 11;
    assert Run(s, 1, IsFontTableChar) == 12;
    assert Run(s, 0, IsFontTableChar) == 13;
    assert LastSemicolon(s, 13) == Some(12);
    assert Run(s, 14, IsSpace) == 0;
    assert Run(s, 13, IsSpace) == 1;
    assert s[14..] == "Hallo";
    assert s == "Arial;Symbol;\nHallo";
  }

  /** A font list in front of the note goes, with the line break after it. */
  lemma CleanTekstRemovesFontList()
    ensures CleanTekst(Str("Arial;Symbol;\nHallo")) == "Hallo"
  {
    FontListPrefix();
    assert Run("Hallo", 0, IsSpace) == 0;
    assert StripLeadingD("Hallo") == "Hallo";
    StrippedUnchanged("Hallo");
  }

  /** " dWerk" has no font list, and loses its leading " d". */
  lemma LeadingDOfWerk()
    ensures StripFontTable(" dWerk") == " dWerk"
    ensures StripLeadingD(" dWerk") == "Werk"
  {
    var s := " d" + "Werk";
    assert Run(s, 0, IsFontTableChar) == 0;
    assert Run(s, 1, IsSpace) == 0;
    assert Run(s, 0, IsSpace) == 1;
    assert s[2..] == "Werk";
    assert s == " dWerk";
  }

  /** A stray `d` before a capital letter goes, with the whitespace before it. */
  lemma CleanTekstRemovesLeadingD()
    ensures CleanTekst(Str(" dWerk")) == "Werk"
  {
    LeadingDOfWerk();
    StrippedUnchanged("Werk");
  }

  /** "dwerk" is a letter run without `;`, and has no capital after its `d`. */
  lemma LowerCaseDKept()
    ensures StripFontTable("dwerk") == "dwerk"
    ensures StripLeadingD("dwerk") == "dwerk"
  {
  }

  /** Before a lower-case letter the `d` stays. */
  lemma CleanTekstKeepsLowerCaseD()
    ensures CleanTekst(Str("dwerk")) == "dwerk"
  {
    LowerCaseDKept();
    StrippedUnchanged("dwerk");
  }

  /** In "x; dAb; foo" the font list is "x; ", which leaves "dAb; foo". */
  lemma FontListOfFirstPass()
    ensures StripFontTable("x; dAb; foo") == "dAb; foo"
  {
    var u := "dAb; " + "foo";
    var s := "x; " + u;
    assert Run(s, 2, IsFontTableChar) == 0;
    assert Run(s, 1, IsFontTableChar) == 1;
    assert Run(s, 0, IsFontTableChar) == 2;
    assert LastSemicolon(s, 2) == Some(1);
    assert Run(s, 3, IsSpace) == 0;
    assert Run(s, 2, IsSpace) == 1;
    assert s[3..] == u;
    assert u == "dAb; foo";
    assert s == "x; dAb; foo";
  }

  /** The `d` exposed by the first substitution goes. */
  lemma LeadingDOfFirstPass()
    ensures StripLeadingD("dAb; foo") == "Ab; foo"
  {
  }

  /** The first pass over "x; dAb; foo" removes "x; " as a font list and then the `d`. */
  lemma CleanTekstFirstPass()
    ensures CleanTekst(Str("x; dAb; foo")) == "Ab; foo"
  {
    FontListOfFirstPass();
    LeadingDOfFirstPass();
    StrippedUnchanged("Ab; foo");
  }

  /** "Ab; foo" starts with the font list "Ab; ". */
  lemma FontListOfSecondPass()
    ensures StripFontTable("Ab; foo") == "foo"
  {
    var u := "Ab; " + "foo";
    assert Run(u, 3, IsFontTableChar) == 0;
    assert Run(u, 2, IsFontTableChar) == 1;
    assert Run(u, 1, IsFontTableChar) == 2;
    assert Run(u, 0, IsFontTableChar) == 3;
    assert LastSemicolon(u, 3) == Some(2);
    assert Run(u, 4, IsSpace) == 0;
    assert Run(u, 3, IsSpace) == 1;
    assert u[4..] == "foo";
    assert u == "Ab; foo";
  }

  /** The second pass over that result finds "Ab; " to be a font list. */
  lemma CleanTekstSecondPass()
    ensures CleanTekst(Str("Ab; foo")) == "foo"
  {
    FontListOfSecondPass();
    assert Run("foo", 0, IsSpace) == 0;
    assert StripLeadingD("foo") == "foo";
    StrippedUnchanged("foo");
  }

  /** clean_tekst is not idempotent: the first pass strips a `d`, which
      exposes a new font-table-like prefix that a second pass removes. */
  lemma CleanTekstNotIdempotent()
    ensures exists s :: CleanTekst(Str(CleanTekst(Str(s)))) != CleanTekst(Str(s))
  {
    CleanTekstFirstPass();
    CleanTekstSecondPass();
    NotIdempotentAt("x; dAb; foo", "Ab; foo");
  }

  /** A text whose cleaned form cleans further shows that clean_tekst is not idempotent. */
  lemma NotIdempotentAt(s: string, u: string)
    requires CleanTekst(Str(s)) == u && CleanTekst(Str(u)) != u
    ensures exists s :: CleanTekst(Str(CleanTekst(Str(s)))) != CleanTekst(Str(s))
  {
  }
}

/** Properties of the transliteration engine that relate whole runs of the
    scanner: text without Latin letters is left alone, the scanner never
    reads behind its cursor, and (for tables whose keys are Latin letters)
    a non-letter splits the text into independently transliterated parts.
    The last group works the engine through the small inputs that show
    hal kirima, the inherent vowel, vowel signs, both cluster marks
    (rakaransaya and yansaya) and an unrecognised letter. */
module EngineProperties {
  import opened MappingTable
  import opened SinhalaEngine

  /** No character of `s` is a Latin letter. */
  predicate NoLatinLetters(s: string)
  {
    forall k :: 0 <= k < |s| ==> !IsLatinLetter(s[k])
  }

  /** A key as the tables are meant to hold them: a non-empty run of Latin letters. */
  predicate LatinKey(k: string)
  {
    |k| >= 1 && forall n :: 0 <= n < |k| ==> IsLatinLetter(k[n])
  }

  /** Every key of every table is a Latin key. */
  predicate WellFormed(t: Tables)
  {
    && (forall k :: k in t.vowels ==> LatinKey(k))
    && (forall k :: k in t.consonants ==> LatinKey(k))
    && (forall k :: k in t.signs ==> LatinKey(k))
  }

  // ---------------------------------------------------------------------
  // Letter-free text passes through unchanged.

  /** From any cursor, text with no Latin letters ahead is copied verbatim. */
  lemma {:induction false} NoLatinLettersFrom(t: Tables, text: string, i: nat)
    requires i <= |text|
    requires forall k :: i <= k < |text| ==> !IsLatinLetter(text[k])
    ensures TransliterateFrom(t, text, i) == text[i..]
    decreases |text| - i
  {
    if i < |text| {
      NoLatinLettersFrom(t, text, i + 1);
      assert text[i..] == [text[i]] + text[i + 1..];
    }
  }

  /** Text without Latin letters (digits, punctuation, white space, Sinhala
      script, and so earlier output of the engine) is returned unchanged. */
  lemma NoLatinLettersUnchanged(t: Tables, text: string)
    requires NoLatinLetters(text)
    ensures Transliterated(t, text) == text
  {
    assert text[0..] == text;
    NoLatinLettersFrom(t, text, 0);
  }

  // ---------------------------------------------------------------------
  // The scanner never looks behind its cursor.

  lemma SubstringShift(prefix: string, text: string, from: nat, to: nat)
    requires from <= to
    ensures Substring(prefix + text, |prefix| + from, |prefix| + to) == Substring(text, from, to)
  {
    var lo, hi := Min(from, |text|), Min(to, |text|);
    assert (prefix + text)[|prefix| + lo..|prefix| + hi] == text[lo..hi];
  }

  lemma CharAtShift(prefix: string, text: string, p: nat)
    ensures CharAt(prefix + text, |prefix| + p) == CharAt(text, p)
  {
    if p < |text| {
      assert (prefix + text)[|prefix| + p] == text[p];
    }
  }

  lemma ConsonantBaseShift(t: Tables, prefix: string, text: string, j: nat)
    requires j < |text|
    ensures ConsonantBase(t.consonants, prefix + text, |prefix| + j) == ConsonantBase(t.consonants, text, j)
  {
    SubstringShift(prefix, text, j, j + 3);
    SubstringShift(prefix, text, j, j + 2);
    SubstringShift(prefix, text, j, j + 1);
  }

  lemma StandaloneVowelShift(t: Tables, prefix: string, text: string, j: nat)
    requires j < |text|
    ensures StandaloneVowel(t.vowels, prefix + text, |prefix| + j) == StandaloneVowel(t.vowels, text, j)
  {
    SubstringShift(prefix, text, j, j + 2);
    SubstringShift(prefix, text, j, j + 1);
  }

  lemma ClusterMarkShift(t: Tables, prefix: string, text: string, p: nat)
    ensures var (suffix, next) := ClusterMark(t.vowels, text, p);
            ClusterMark(t.vowels, prefix + text, |prefix| + p) == (suffix, |prefix| + next)
  {
    CharAtShift(prefix, text, p);
    CharAtShift(prefix, text, p + 1);
    if p < |text| {
      assert (prefix + text)[|prefix| + p] == text[p];
    }
  }

  lemma VowelSignShift(t: Tables, prefix: string, text: string, q: nat)
    ensures VowelSign(t.signs, prefix + text, |prefix| + q) == VowelSign(t.signs, text, q)
  {
    SubstringShift(prefix, text, q, q + 2);
    CharAtShift(prefix, text, q);
    if q < |text| {
      assert (prefix + text)[|prefix| + q] == text[q];
    }
  }

  lemma ConsonantStepShift(t: Tables, prefix: string, text: string, j: nat, base: Match)
    requires base.len >= 1
    ensures var s := ConsonantStep(t, text, j, base);
            ConsonantStep(t, prefix + text, |prefix| + j, base) == Step(s.emit, |prefix| + s.next)
  {
    hide ConsonantStep, ClusterMark, VowelSign, CharAt, TruthyAt;
    ClusterMarkShift(t, prefix, text, j + base.len);
    var (suffix, p) := ClusterMark(t.vowels, text, j + base.len);
    var sign := VowelSign(t.signs, text, p);
    var v := TruthyAt(t.vowels, CharAt(text, p));
    VowelSignShift(t, prefix, text, p);
    CharAtShift(prefix, text, p);
    ConsonantStepFrom(t, text, j, base, suffix, p, sign, v);
    ConsonantStepFrom(t, prefix + text, |prefix| + j, base, suffix, |prefix| + p, sign, v);
  }

  /** Scanning behind any prefix does the same step, shifted by the prefix. */
  lemma StepShift(t: Tables, prefix: string, text: string, j: nat)
    requires j < |text|
    ensures var s := ScanStep(t, text, j);
            ScanStep(t, prefix + text, |prefix| + j) == Step(s.emit, |prefix| + s.next)
  {
    hide ConsonantStep, ConsonantBase, StandaloneVowel;
    assert (prefix + text)[|prefix| + j] == text[j];
    ConsonantBaseShift(t, prefix, text, j);
    var base := ConsonantBase(t.consonants, text, j);
    if IsLatinLetter(text[j]) && base.Some? {
      ConsonantStepShift(t, prefix, text, j, base.value);
    } else if IsLatinLetter(text[j]) {
      StandaloneVowelShift(t, prefix, text, j);
    }
  }

  /** One turn of the scanning loop, read off the recursive definition. */
  lemma FromStep(t: Tables, text: string, i: nat)
    requires i < |text|
    ensures var s := ScanStep(t, text, i);
            TransliterateFrom(t, text, i) == s.emit + TransliterateFrom(t, text, s.next)
  {
    hide ScanStep;
  }

  /** The output from a cursor depends only on the text from that cursor on. */
  lemma {:induction false} ShiftFrom(t: Tables, prefix: string, text: string, j: nat)
    ensures TransliterateFrom(t, prefix + text, |prefix| + j) == TransliterateFrom(t, text, j)
    decreases |text| - j
  {
    hide TransliterateFrom, ScanStep;
    if j < |text| {
      FromStep(t, text, j);
      FromStep(t, prefix + text, |prefix| + j);
      StepShift(t, prefix, text, j);
      ShiftFrom(t, prefix, text, ScanStep(t, text, j).next);
    }
  }

  // ---------------------------------------------------------------------
  // A non-letter splits the transliteration (tables with Latin keys).

  /** What the lookups see near the end of `a` when a text `s` starting
      with a non-letter follows it: windows inside `a` are unchanged,
      windows reaching past `a` hold the non-letter and so are no key, and
      in `a` alone such a window is clamped to the rest of `a`. */
  lemma SubstringAtBoundary(a: string, s: string, q: nat, n: nat)
    requires |s| > 0 && !IsLatinLetter(s[0]) && q <= |a|
    ensures q + n <= |a| ==> Substring(a + s, q, q + n) == Substring(a, q, q + n)
    ensures |a| < q + n ==> !LatinKey(Substring(a + s, q, q + n))
    ensures |a| <= q + n ==> Substring(a, q, q + n) == a[q..]
  {
    var w := Substring(a + s, q, q + n);
    if q + n <= |a| {
      assert (a + s)[q..q + n] == a[q..q + n];
    }
    if |a| < q + n {
      assert w[|a| - q] == s[0];
    }
  }

  lemma CharAtBoundary(a: string, s: string, q: nat)
    requires |s| > 0 && !IsLatinLetter(s[0]) && q <= |a|
    ensures q < |a| ==> CharAt(a + s, q) == CharAt(a, q)
    ensures q == |a| ==> CharAt(a + s, q).Some? && !LatinKey(CharAt(a + s, q).value)
    ensures q == |a| ==> CharAt(a, q).None?
  {
    if q < |a| {
      assert (a + s)[q] == a[q];
    } else {
      assert (a + s)[q] == s[0];
      assert CharAt(a + s, q).value[0] == s[0];
    }
  }

  lemma NotLatinNotKey(m: map<string, string>, k: string)
    requires forall key :: key in m ==> LatinKey(key)
    requires !LatinKey(k)
    ensures k !in m && !Truthy(m, k)
  {
  }

  /** The consonant base near the end of `a` is the same with or without
      the following text; only the cursor advance, clamped in `a` alone,
      can reach further than the end of `a`. */
  lemma ConsonantBaseAtBoundary(t: Tables, a: string, s: string, i: nat)
    requires WellFormed(t) && |s| > 0 && !IsLatinLetter(s[0]) && i < |a|
    ensures var rA := ConsonantBase(t.consonants, a, i);
            var rT := ConsonantBase(t.consonants, a + s, i);
            && rA.Some? == rT.Some?
            && (rA.Some? ==> rA.value.glyph == rT.value.glyph && i + rT.value.len == Min(i + rA.value.len, |a|))
  {
    SubstringAtBoundary(a, s, i, 1);
    SubstringAtBoundary(a, s, i, 2);
    SubstringAtBoundary(a, s, i, 3);
    if |a| < i + 2 {
      NotLatinNotKey(t.consonants, Substring(a + s, i, i + 2));
    }
    if |a| < i + 3 {
      NotLatinNotKey(t.consonants, Substring(a + s, i, i + 3));
    }
  }

  lemma StandaloneVowelAtBoundary(t: Tables, a: string, s: string, i: nat)
    requires WellFormed(t) && |s| > 0 && !IsLatinLetter(s[0]) && i < |a|
    ensures var rA := StandaloneVowel(t.vowels, a, i);
            var rT := StandaloneVowel(t.vowels, a + s, i);
            && rA.Some? == rT.Some?
            && (rA.Some? ==> rA.value.glyph == rT.value.glyph && i + rT.value.len == Min(i + rA.value.len, |a|))
  {
    SubstringAtBoundary(a, s, i, 1);
    SubstringAtBoundary(a, s, i, 2);
    if |a| < i + 2 {
      NotLatinNotKey(t.vowels, Substring(a + s, i, i + 2));
    }
  }

  /** The cluster mark after a base: the same mark, and the position after
      it clamped to the end of `a`. */
  lemma ClusterMarkAtBoundary(t: Tables, a: string, s: string, p: nat)
    requires WellFormed(t) && |s| > 0 && !IsLatinLetter(s[0])
    ensures var (suffixA, nextA) := ClusterMark(t.vowels, a, p);
            var (suffixT, nextT) := ClusterMark(t.vowels, a + s, Min(p, |a|));
            suffixA == suffixT && nextT == Min(nextA, |a|)
  {
    var q := Min(p, |a|);
    CharAtBoundary(a, s, q);
    if q < |a| {
      CharAtBoundary(a, s, q + 1);
      if q + 1 == |a| {
        NotLatinNotKey(t.vowels, CharAt(a + s, q + 1).value);
      }
    }
  }

  /** The sign after a base and cluster: the same glyph (or none), the
      same answer to "is a vowel key next", and the cursor past the sign
      clamped to the end of `a`. */
  lemma VowelSignAtBoundary(t: Tables, a: string, s: string, q: nat)
    requires WellFormed(t) && |s| > 0 && !IsLatinLetter(s[0])
    ensures var sA := VowelSign(t.signs, a, q);
            var sT := VowelSign(t.signs, a + s, Min(q, |a|));
            && SignGlyph(sA) == SignGlyph(sT)
            && Min(q, |a|) + SignLen(sT) == Min(q + SignLen(sA), |a|)
            && TruthyAt(t.vowels, CharAt(a, q)) == TruthyAt(t.vowels, CharAt(a + s, Min(q, |a|)))
  {
    var r := Min(q, |a|);
    CharAtBoundary(a, s, r);
    SubstringAtBoundary(a, s, r, 2);
    if |a| < r + 2 {
      NotLatinNotKey(t.signs, Substring(a + s, r, r + 2));
    }
    if q >= |a| {
      NotLatinNotKey(t.signs, CharAt(a + s, r).value);
      NotLatinNotKey(t.vowels, CharAt(a + s, r).value);
      assert Substring(a, q, q + 2) == [];
      NotLatinNotKey(t.signs, []);
      assert VowelSign(t.signs, a, q).None?;
      assert VowelSign(t.signs, a + s, r).None?;
    } else if q + 1 == |a| {
      assert Substring(a, q, q + 2) == [a[q]];
      assert CharAt(a + s, q) == CharAt(a, q) == Some([a[q]]);
    }
  }

  /** The sign-or-hal-kirima decision, taken once at `pA` in `a` alone
      and once at the clamped `pT` in the longer text, gives the same output
      and the clamped cursor, provided both see the same sign glyph, the
      same answer to "vowel next", and the clamped cursor past the sign. */
  lemma AttachVowelClamped(head: string, end: nat, pA: nat, sA: Option<Match>, pT: nat, sT: Option<Match>, vowelNext: bool)
    requires SignGlyph(sA) == SignGlyph(sT)
    requires pT == Min(pA, end) && pT + SignLen(sT) == Min(pA + SignLen(sA), end)
    ensures var rA := AttachVowel(head, pA, sA, vowelNext);
            AttachVowel(head, pT, sT, vowelNext) == Step(rA.emit, Min(rA.next, end))
  {
  }

  /** A consonant step assembled from the pieces its lookups return. */
  lemma ConsonantStepFrom(t: Tables, text: string, i: nat, base: Match, suffix: string, p: nat, sign: Option<Match>, v: bool)
    requires base.len >= 1 && ClusterMark(t.vowels, text, i + base.len) == (suffix, p)
    requires VowelSign(t.signs, text, p) == sign && TruthyAt(t.vowels, CharAt(text, p)) == v
    ensures ConsonantStep(t, text, i, base) == AttachVowel(base.glyph + suffix, p, sign, v)
  {
  }

  /** The rest of a consonant step near the end of `a`, for the same
      base glyph found with a cursor advance clamped to the end of `a`. */
  lemma ConsonantStepAtBoundary(t: Tables, a: string, s: string, i: nat, bA: Match, bT: Match)
    requires WellFormed(t) && |s| > 0 && !IsLatinLetter(s[0]) && i < |a|
    requires bA.len >= 1 && bT.len >= 1 && bA.glyph == bT.glyph && i + bT.len == Min(i + bA.len, |a|)
    ensures var sA := ConsonantStep(t, a, i, bA);
            var sT := ConsonantStep(t, a + s, i, bT);
            sT.emit == sA.emit && sT.next == Min(sA.next, |a|)
  {
    hide *;
    ClusterMarkAtBoundary(t, a, s, i + bA.len);
    var (suffix, pA) := ClusterMark(t.vowels, a, i + bA.len);
    var pT := Min(pA, |a|);
    var sA := VowelSign(t.signs, a, pA);
    var sT := VowelSign(t.signs, a + s, pT);
    var v := TruthyAt(t.vowels, CharAt(a, pA));
    VowelSignAtBoundary(t, a, s, pA);
    ConsonantStepFrom(t, a, i, bA, suffix, pA, sA, v);
    ConsonantStepFrom(t, a + s, i, bT, suffix, pT, sT, v);
    AttachVowelClamped(bA.glyph + suffix, |a|, pA, sA, pT, sT, v);
  }

  /** One step near the end of `a`: the same output, and a cursor that is
      the one in `a` alone clamped to the end of `a`. */
  lemma StepAtBoundary(t: Tables, a: string, s: string, i: nat)
    requires WellFormed(t) && |s| > 0 && !IsLatinLetter(s[0]) && i < |a|
    ensures var sA := ScanStep(t, a, i);
            var sT := ScanStep(t, a + s, i);
            sT.emit == sA.emit && sT.next == Min(sA.next, |a|)
  {
    hide ConsonantStep, ConsonantBase, StandaloneVowel;
    assert (a + s)[i] == a[i];
    ConsonantBaseAtBoundary(t, a, s, i);
    var bA := ConsonantBase(t.consonants, a, i);
    var bT := ConsonantBase(t.consonants, a + s, i);
    if IsLatinLetter(a[i]) && bA.Some? {
      ConsonantStepAtBoundary(t, a, s, i, bA.value, bT.value);
    } else if IsLatinLetter(a[i]) {
      StandaloneVowelAtBoundary(t, a, s, i);
    }
  }

  /** Up to the end of `a`, the scan of `a + s` emits what the scan of `a`
      emits; whatever `s` contributes comes after. */
  lemma {:induction false} FromAtBoundary(t: Tables, a: string, s: string, i: nat)
    requires WellFormed(t) && |s| > 0 && !IsLatinLetter(s[0]) && i <= |a|
    ensures TransliterateFrom(t, a + s, i) == TransliterateFrom(t, a, i) + TransliterateFrom(t, a + s, |a|)
    decreases |a| - i
  {
    hide TransliterateFrom, ScanStep;
    if i < |a| {
      FromStep(t, a, i);
      FromStep(t, a + s, i);
      StepAtBoundary(t, a, s, i);
      var sA := ScanStep(t, a, i);
      if sA.next < |a| {
        FromAtBoundary(t, a, s, sA.next);
        AppendAssoc(sA.emit, TransliterateFrom(t, a, sA.next), TransliterateFrom(t, a + s, |a|));
      }
    }
  }

  /** A non-letter character splits the text: the parts before and after
      it are transliterated on their own and the character is copied
      between them, provided every table key is a run of Latin letters. */
  lemma SplitAtNonLetter(t: Tables, a: string, c: char, b: string)
    requires WellFormed(t) && !IsLatinLetter(c)
    ensures Transliterated(t, a + [c] + b) == Transliterated(t, a) + [c] + Transliterated(t, b)
  {
    var s := [c] + b;
    assert a + [c] + b == a + s;
    FromAtBoundary(t, a, s, 0);
    assert (a + s)[|a|] == c;
    ShiftFrom(t, a + [c], b, 0);
    assert a + s == (a + [c]) + b;
  }

  // ---------------------------------------------------------------------
  // The end of a consonant.

  /** After the base glyph and its cluster mark, the consonant ends with
      the hal kirima, the cursor staying just after the cluster mark,
      exactly when the sign lookup gave nothing but "" and no one-letter
      vowel key follows; otherwise it ends with the sign glyph and the
      cursor passes the sign. */
  lemma HalKirimaOrSign(t: Tables, text: string, i: nat, base: Match)
    requires base.len >= 1
    ensures var (suffix, p) := ClusterMark(t.vowels, text, i + base.len);
            var sign := VowelSign(t.signs, text, p);
            var s := ConsonantStep(t, text, i, base);
            (s.emit == base.glyph + suffix + HalKirima && s.next == p)
              <==> (SignGlyph(sign) == "" && !TruthyAt(t.vowels, CharAt(text, p)))
    ensures var (suffix, p) := ClusterMark(t.vowels, text, i + base.len);
            var sign := VowelSign(t.signs, text, p);
            var s := ConsonantStep(t, text, i, base);
            SignGlyph(sign) != "" || TruthyAt(t.vowels, CharAt(text, p)) ==>
              s == Step(base.glyph + suffix + SignGlyph(sign), p + SignLen(sign))
  {
    var (suffix, p) := ClusterMark(t.vowels, text, i + base.len);
    var sign := VowelSign(t.signs, text, p);
    var v := TruthyAt(t.vowels, CharAt(text, p));
    ConsonantStepFrom(t, text, i, base, suffix, p, sign, v);
    if SignGlyph(sign) == "" && v {
      assert sign.Some? || ConsonantStep(t, text, i, base).emit == base.glyph + suffix;
    }
  }

  // ---------------------------------------------------------------------
  // Small inputs.

  /** A lone consonant letter gets the hal kirima. */
  lemma LoneConsonant(t: Tables, k: char)
    requires IsLatinLetter(k) && Truthy(t.consonants, [k]) && "" !in t.signs
    ensures Transliterated(t, [k]) == t.consonants[[k]] + HalKirima
  {
    var text := [k];
    assert Substring(text, 0, 3) == text;
    assert Substring(text, 3, 5) == "";
    assert ScanStep(t, text, 0) == Step(t.consonants[[k]] + HalKirima, 3);
  }

  /** A one-letter consonant followed by a one-letter vowel fragment that
      has a sign entry gets that sign; for the open vowel the sign is ""
      and the bare consonant glyph remains. */
  lemma ConsonantWithSign(t: Tables, k: char, v: char)
    requires IsLatinLetter(k) && IsLatinLetter(v) && v != 'r' && v != 'y'
    requires Truthy(t.consonants, [k]) && !Truthy(t.consonants, [k, v])
    requires [v] in t.signs && (t.signs[[v]] != "" || Truthy(t.vowels, [v]))
    ensures Transliterated(t, [k, v]) == t.consonants[[k]] + t.signs[[v]]
  {
    var text := [k, v];
    assert Substring(text, 0, 3) == text && Substring(text, 0, 2) == text;
    assert Substring(text, 1, 3) == [v];
    assert ScanStep(t, text, 0) == Step(t.consonants[[k]] + t.signs[[v]], 3);
  }

  /** An 'r' after a consonant at the end of the text becomes the
      rakaransaya, followed by the hal kirima. */
  lemma ConsonantThenR(t: Tables, k: char)
    requires IsLatinLetter(k) && Truthy(t.consonants, [k]) && !Truthy(t.consonants, [k, 'r'])
    requires "" !in t.signs
    ensures Transliterated(t, [k, 'r']) == t.consonants[[k]] + Rakaransaya + HalKirima
  {
    var text := [k, 'r'];
    assert Substring(text, 0, 3) == text && Substring(text, 0, 2) == text;
    assert Substring(text, 2, 4) == "";
    assert ScanStep(t, text, 0) == Step(t.consonants[[k]] + Rakaransaya + HalKirima, 2);
  }

  /** A 'y' after a consonant at the end of the text becomes the yansaya,
      followed by the hal kirima. */
  lemma ConsonantThenY(t: Tables, k: char)
    requires IsLatinLetter(k) && Truthy(t.consonants, [k]) && !Truthy(t.consonants, [k, 'y'])
    requires "" !in t.signs
    ensures Transliterated(t, [k, 'y']) == t.consonants[[k]] + Yansaya + HalKirima
  {
    var text := [k, 'y'];
    assert Substring(text, 0, 3) == text && Substring(text, 0, 2) == text;
    assert Substring(text, 2, 4) == "";
    assert ScanStep(t, text, 0) == Step(t.consonants[[k]] + Yansaya + HalKirima, 2);
  }

  /** An 'r' that is followed by a one-letter vowel key is not a cluster:
      the consonant gets the hal kirima and the scan resumes at the 'r'. */
  lemma NoClusterBeforeVowel(t: Tables, k: char, v: char)
    requires IsLatinLetter(k) && IsLatinLetter(v) && Truthy(t.vowels, [v])
    requires Truthy(t.consonants, [k]) && !Truthy(t.consonants, [k, 'r', v]) && !Truthy(t.consonants, [k, 'r'])
    requires ['r', v] !in t.signs && ['r'] !in t.signs && !Truthy(t.vowels, ['r'])
    ensures Transliterated(t, [k, 'r', v]) == t.consonants[[k]] + HalKirima + Transliterated(t, ['r', v])
  {
    var text := [k, 'r', v];
    assert Substring(text, 0, 3) == text && Substring(text, 0, 2) == [k, 'r'];
    assert Substring(text, 1, 3) == ['r', v];
    assert ScanStep(t, text, 0) == Step(t.consonants[[k]] + HalKirima, 1);
    assert text == [k] + ['r', v];
    ShiftFrom(t, [k], ['r', v], 0);
  }

  /** A vowel letter with no sign entry after a consonant keeps the
      consonant's inherent vowel: the consonant glyph is emitted bare, the
      cursor stays on the vowel, and the vowel is then scanned again and
      written as a standalone vowel. */
  lemma InherentVowelRescanned(t: Tables, k: char, v: char)
    requires IsLatinLetter(k) && IsLatinLetter(v) && v != 'r' && v != 'y'
    requires Truthy(t.consonants, [k]) && !Truthy(t.consonants, [k, v]) && !Truthy(t.consonants, [v])
    requires Truthy(t.vowels, [v]) && [v] !in t.signs
    ensures Transliterated(t, [k, v]) == t.consonants[[k]] + t.vowels[[v]]
  {
    var text := [k, v];
    assert Substring(text, 0, 3) == text && Substring(text, 0, 2) == text;
    assert Substring(text, 1, 3) == [v] && Substring(text, 1, 4) == [v];
    assert ScanStep(t, text, 0) == Step(t.consonants[[k]], 1);
    assert ScanStep(t, text, 1) == Step(t.vowels[[v]], 3);
    FromStep(t, text, 0);
    FromStep(t, text, 1);
  }

  /** A letter that is neither a consonant key nor a vowel key is copied
      through unchanged. */
  lemma UnrecognisedLetter(t: Tables, q: char)
    requires IsLatinLetter(q) && !Truthy(t.consonants, [q]) && !Truthy(t.vowels, [q])
    ensures Transliterated(t, [q]) == [q]
  {
    var text := [q];
    assert Substring(text, 0, 3) == text && Substring(text, 0, 2) == text && Substring(text, 0, 1) == text;
    assert ScanStep(t, text, 0) == Step([q], 1);
  }
}

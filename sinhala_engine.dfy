/** The Singlish-to-Sinhala transliteration engine.

    A single left-to-right scan over the input.  At each cursor position it
    copies a non-letter through, or takes the longest consonant key and
    attaches at most one cluster mark (rakaransaya or yansaya) and then a
    vowel sign or the hal kirima, or emits a standalone vowel, or copies an
    unrecognised letter through.  The pure functions below describe one
    scan step; `Transliterate` is the loop itself, proved to compute
    `Transliterated`.
 */
module SinhalaEngine {
  import opened MappingTable

  /** The vowel-suppression mark (U+0DCA). */
  const HalKirima: string := "\U{0DCA}"
  /** Hal kirima, zero-width joiner, RA (U+0DCA U+200D U+0DBB). */
  const Rakaransaya: string := "\U{0DCA}\U{200D}\U{0DBB}"
  /** Hal kirima, zero-width joiner, YA (U+0DCA U+200D U+0DBA). */
  const Yansaya: string := "\U{0DCA}\U{200D}\U{0DBA}"

  datatype Option<T> = None | Some(value: T)

  /** A table hit: the glyph found and the cursor advance recorded with it
      (which, at the end of the text, can exceed the key's own length). */
  datatype Match = Match(glyph: string, len: nat)

  /** What one scan step appends to the output and where the cursor goes. */
  datatype Step = Step(emit: string, next: nat)

  function Min(x: int, y: int): int { if x <= y then x else y }

  /** The regular-expression test `[a-zA-Z]` on one character. */
  predicate IsLatinLetter(c: char)
  {
    'a' <= c <= 'z' || 'A' <= c <= 'Z'
  }

  /** `text.substring(from, to)` for `from <= to`: both ends are clamped to
      the length of the text. */
  function Substring(text: string, from: nat, to: nat): string
    requires from <= to
  {
    text[Min(from, |text|)..Min(to, |text|)]
  }

  /** `text[p]` used as a table key: the one-character string, or None
      (an undefined index) when `p` is past the end. */
  function CharAt(text: string, p: nat): Option<string>
  {
    if p < |text| then Some([text[p]]) else None
  }

  /** JavaScript truthiness of `table[key]`: the key is defined and its
      glyph is not the empty string. */
  predicate Truthy(table: map<string, string>, key: string)
  {
    key in table && table[key] != ""
  }

  /** Truthiness of `table[text[p]]`; an undefined index is never truthy. */
  predicate TruthyAt(table: map<string, string>, key: Option<string>)
  {
    key.Some? && Truthy(table, key.value)
  }

  /** Consonant base at `i`, longest first: the 3-character substring, then
      the 2-character one, then the character itself.  A longer key wins
      whenever it is truthy, and a shorter one is taken only when every
      longer one is absent or maps to "". */
  function ConsonantBase(consonants: map<string, string>, text: string, i: nat): (r: Option<Match>)
    requires i < |text|
    ensures r.None? <==>
      && !Truthy(consonants, Substring(text, i, i + 3))
      && !Truthy(consonants, Substring(text, i, i + 2))
      && !Truthy(consonants, Substring(text, i, i + 1))
    ensures r.Some? ==>
      && 1 <= r.value.len <= 3
      && Truthy(consonants, Substring(text, i, i + r.value.len))
      && r.value.glyph == consonants[Substring(text, i, i + r.value.len)]
      && (r.value.len < 3 ==> !Truthy(consonants, Substring(text, i, i + 3)))
      && (r.value.len < 2 ==> !Truthy(consonants, Substring(text, i, i + 2)))
  {
    var three := Substring(text, i, i + 3);
    var two := Substring(text, i, i + 2);
    assert Substring(text, i, i + 1) == [text[i]];
    if Truthy(consonants, three) then Some(Match(consonants[three], 3))
    else if Truthy(consonants, two) then Some(Match(consonants[two], 2))
    else if Truthy(consonants, [text[i]]) then Some(Match(consonants[[text[i]]], 1))
    else None
  }

  /** The cluster mark after a consonant whose key ends before `p`, and the
      position after it.  An 'r' whose following character is not a truthy
      one-character vowel key (the end of the text included) becomes the
      rakaransaya; otherwise a 'y' under the same test becomes the yansaya;
      otherwise nothing is attached.  A mark consumes exactly one character. */
  function ClusterMark(vowels: map<string, string>, text: string, p: nat): (r: (string, nat))
    ensures r.0 == Rakaransaya <==>
      p < |text| && text[p] == 'r' && !TruthyAt(vowels, CharAt(text, p + 1))
    ensures r.0 == Yansaya <==>
      p < |text| && text[p] == 'y' && !TruthyAt(vowels, CharAt(text, p + 1))
    ensures r.0 == "" <==> r.0 != Rakaransaya && r.0 != Yansaya
    ensures r.1 == if r.0 == "" then p else p + 1
  {
    if p < |text| && text[p] == 'r' && !TruthyAt(vowels, CharAt(text, p + 1)) then
      (Rakaransaya, p + 1)
    else if p < |text| && text[p] == 'y' && !TruthyAt(vowels, CharAt(text, p + 1)) then
      (Yansaya, p + 1)
    else
      ("", p)
  }

  /** Vowel sign at `p`, longest first: the 2-character substring, then the
      character at `p`.  A sign counts as found whenever its key is defined,
      even when the sign itself is "". */
  function VowelSign(signs: map<string, string>, text: string, p: nat): (r: Option<Match>)
    ensures r.None? <==>
      Substring(text, p, p + 2) !in signs && !(CharAt(text, p).Some? && CharAt(text, p).value in signs)
    ensures r.Some? && Substring(text, p, p + 2) in signs ==>
      r.value == Match(signs[Substring(text, p, p + 2)], 2)
    ensures r.Some? && Substring(text, p, p + 2) !in signs ==>
      p < |text| && r.value == Match(signs[[text[p]]], 1)
  {
    var two := Substring(text, p, p + 2);
    if two in signs then Some(Match(signs[two], 2))
    else if p < |text| && [text[p]] in signs then Some(Match(signs[[text[p]]], 1))
    else None
  }

  /** Standalone vowel at `i`, longest first: the 2-character substring,
      then the character itself, each only when truthy.  A hit at length
      two advances the cursor by two even where the text ends after one. */
  function StandaloneVowel(vowels: map<string, string>, text: string, i: nat): (r: Option<Match>)
    requires i < |text|
    ensures r.None? <==>
      !Truthy(vowels, Substring(text, i, i + 2)) && !Truthy(vowels, Substring(text, i, i + 1))
    ensures r.Some? ==>
      && 1 <= r.value.len <= 2
      && Truthy(vowels, Substring(text, i, i + r.value.len))
      && r.value.glyph == vowels[Substring(text, i, i + r.value.len)]
      && (r.value.len < 2 ==> !Truthy(vowels, Substring(text, i, i + 2)))
  {
    var two := Substring(text, i, i + 2);
    assert Substring(text, i, i + 1) == [text[i]];
    if Truthy(vowels, two) then Some(Match(vowels[two], 2))
    else if Truthy(vowels, [text[i]]) then Some(Match(vowels[[text[i]]], 1))
    else None
  }

  /** The glyph of a sign lookup, "" when none was found. */
  function SignGlyph(sign: Option<Match>): string
  {
    if sign.Some? then sign.value.glyph else ""
  }

  /** The cursor advance of a sign lookup, 0 when none was found. */
  function SignLen(sign: Option<Match>): nat
  {
    if sign.Some? then sign.value.len else 0
  }

  /** The end of a consonant: `head` is the base glyph with its cluster
      mark and `p` the cursor after them.  A non-empty sign, or a vowel key
      at `p`, is voiced: the sign (possibly "") is appended and the cursor
      passes it.  Otherwise the hal kirima is appended and the cursor stays
      at `p`, so no vowel character is consumed. */
  function AttachVowel(head: string, p: nat, sign: Option<Match>, vowelNext: bool): (s: Step)
    ensures p <= s.next <= p + SignLen(sign)
  {
    if SignGlyph(sign) != "" || vowelNext then Step(head + SignGlyph(sign), p + SignLen(sign))
    else Step(head + HalKirima, p)
  }

  /** Everything emitted for a consonant base found at `i`: the base glyph,
      the cluster mark, and then the sign or the hal kirima. */
  function ConsonantStep(t: Tables, text: string, i: nat, base: Match): (s: Step)
    requires base.len >= 1
    ensures i + base.len <= s.next <= i + base.len + 3
  {
    var (suffix, p) := ClusterMark(t.vowels, text, i + base.len);
    AttachVowel(base.glyph + suffix, p, VowelSign(t.signs, text, p), TruthyAt(t.vowels, CharAt(text, p)))
  }

  /** One iteration of the scanning loop at cursor `i`.  It always moves the
      cursor forward (by at most six: a 3-character base, one cluster
      letter, a 2-character sign) and always emits something; a non-letter
      is copied and passed by exactly one.  For a letter, a consonant base
      takes precedence, a standalone vowel is used only when no consonant
      key matches, and a letter in neither table is copied and passed by
      exactly one. */
  function ScanStep(t: Tables, text: string, i: nat): (s: Step)
    requires i < |text|
    ensures i < s.next <= i + 6
    ensures s.emit != ""
    ensures !IsLatinLetter(text[i]) ==> s == Step([text[i]], i + 1)
    ensures IsLatinLetter(text[i]) && ConsonantBase(t.consonants, text, i).Some? ==>
              s == ConsonantStep(t, text, i, ConsonantBase(t.consonants, text, i).value)
    ensures IsLatinLetter(text[i]) && ConsonantBase(t.consonants, text, i).None?
              && StandaloneVowel(t.vowels, text, i).Some? ==>
              s == Step(StandaloneVowel(t.vowels, text, i).value.glyph, i + StandaloneVowel(t.vowels, text, i).value.len)
    ensures IsLatinLetter(text[i]) && ConsonantBase(t.consonants, text, i).None?
              && StandaloneVowel(t.vowels, text, i).None? ==>
              s == Step([text[i]], i + 1)
  {
    if !IsLatinLetter(text[i]) then Step([text[i]], i + 1)
    else match ConsonantBase(t.consonants, text, i)
      case Some(base) => ConsonantStep(t, text, i, base)
      case None =>
        match StandaloneVowel(t.vowels, text, i)
        case Some(v) => Step(v.glyph, i + v.len)
        case None => Step([text[i]], i + 1)
  }

  /** The output produced from cursor `i` to the end of the text. */
  function TransliterateFrom(t: Tables, text: string, i: nat): (r: string)
    ensures r == "" <==> |text| <= i
    decreases |text| - i
  {
    if |text| <= i then ""
    else
      var s := ScanStep(t, text, i);
      s.emit + TransliterateFrom(t, text, s.next)
  }

  /** The transliteration of a whole text; every step emits something, so
      the output is empty exactly when the input is. */
  function Transliterated(t: Tables, text: string): (r: string)
    ensures r == "" <==> text == ""
  {
    TransliterateFrom(t, text, 0)
  }

  /** The consonant branch of the loop body: the cluster mark, the vowel
      sign, and the choice between sign and hal kirima, for a base found at
      `i`.  Returns what is appended to the output and the new cursor. */
  method ScanConsonant(t: Tables, text: string, i: nat, found: Match) returns (emitted: string, next: nat)
    requires found.len >= 1
    ensures Step(emitted, next) == ConsonantStep(t, text, i, found)
  {
    var base := found.glyph;
    var (clusterSuffix, currentPos) := ClusterMark(t.vowels, text, i + found.len);
    var vSign := "";
    var vLen := 0;
    var sign := VowelSign(t.signs, text, currentPos);
    if sign.Some? {
      vSign, vLen := sign.value.glyph, sign.value.len;
    }
    if vSign != "" || (currentPos < |text| && Truthy(t.vowels, [text[currentPos]])) {
      emitted, next := base + clusterSuffix + vSign, currentPos + vLen;
    } else {
      emitted, next := base + clusterSuffix + HalKirima, currentPos;
    }
  }

  /** The engine's scanning loop.  The table lookups are the functions
      above and the consonant branch is `ScanConsonant`; the cursor, the
      output and the fall-backs are kept as the source keeps them. */
  method Transliterate(t: Tables, text: string) returns (result: string)
    ensures result == Transliterated(t, text)
    ensures text == "" ==> result == ""
  {
    if text == "" {
      return "";
    }
    result := "";
    var i: nat := 0;
    while i < |text|
      invariant result + TransliterateFrom(t, text, i) == Transliterated(t, text)
      decreases |text| - i
    {
      ghost var step := ScanStep(t, text, i);
      ghost var rest := TransliterateFrom(t, text, step.next);
      ghost var before := result;
      var ch := text[i];

      if !IsLatinLetter(ch) {
        result := result + [ch];
        i := i + 1;
        AppendAssoc(before, step.emit, rest);
        continue;
      }

      var matched := false;
      var found := ConsonantBase(t.consonants, text, i);
      if found.Some? {
        var emitted, next := ScanConsonant(t, text, i, found.value);
        result := result + emitted;
        i := next;
        matched := true;
      } else {
        var vowel := StandaloneVowel(t.vowels, text, i);
        if vowel.Some? {
          result := result + vowel.value.glyph;
          i := i + vowel.value.len;
          matched := true;
        }
      }

      if !matched {
        result := result + [text[i]];
        i := i + 1;
      }
      assert i == step.next && result == before + step.emit;
      AppendAssoc(before, step.emit, rest);
    }
  }

  lemma AppendAssoc(a: string, b: string, c: string)
    ensures (a + b) + c == a + (b + c)
  {
  }
}

# Singlish → Sinhala transliteration engine, in Dafny

This project models the transliteration core of a Singlish keyboard: the
engine that turns romanized Sinhala typed with Latin letters into Sinhala
Unicode script (`utils/sinhalaEngine.ts`). It covers two parts:

- **Table construction** (`MappingTable`, `mapping_table.dfy`). The engine
  visits a flat list of mapping entries `(english, sinhala, category)` once,
  in order. Entries tagged `Vowels` go into the vowel table. Entries tagged
  `Consonants` or `Special` go into the consonant table. Any other tag is
  dropped, and a later entry overwrites an earlier one with the same key.
  `BuildTables` is that loop. It is proved equal to the recursive
  definition `Built`, and lemmas about `Built` state which keys end up in a
  table and which glyph wins.
- **The scanner** (`SinhalaEngine`, `sinhala_engine.dfy`). This is one
  left-to-right pass over the input. At each cursor position it does one of
  four things:
  - copies a non-letter;
  - takes the longest consonant key (3, 2, then 1 characters), attaches at
    most one cluster mark (rakaransaya, else yansaya), then either a vowel
    sign (2, then 1 characters) or the hal kirima;
  - emits a standalone vowel (2, then 1 characters);
  - copies an unrecognised letter.

  `ScanStep` describes one such step and `TransliterateFrom` the rest of
  the scan. `Transliterate` is the loop itself, with its cursor, output
  string and fall-backs. It is proved to compute `Transliterated`.
- **Properties of whole runs** (`EngineProperties`,
  `engine_properties.dfy`):
  - text without Latin letters is returned unchanged;
  - the scanner never reads behind its cursor;
  - when every table key is a run of Latin letters, a non-letter splits the
    text into parts transliterated independently;
  - small inputs show hal kirima, the inherent vowel, vowel signs, both
    cluster marks (rakaransaya and yansaya) and an unrecognised letter.

The three tables are parameters (`Tables`), not fixed data. The model keeps
the engine's JavaScript semantics where they matter:

- **Truthiness.** A vowel or consonant key counts only when it is defined
  and its glyph is not `""`. A vowel-sign key counts whenever it is defined,
  even when its sign is `""`.
- **Clamping.** `substring` clamps both ends to the text (`Substring`).
- **Reads past the end.** An index past the end is no key at all (`CharAt`).
- **Cursor overshoot.** The cursor may jump past the end of the text, for
  example when a 2-character vowel key is found in the last character
  through a clamped substring.

Where the documented behaviour of the engine and its code disagree, the
model follows the code:

- **Clusters before a vowel.** An `r` (or `y`) after a consonant becomes a
  cluster mark only when the character after it is *not* a one-letter vowel
  key. So with `a` a vowel key, `tra` gives the consonant with hal kirima
  followed by `ra`. It does not give consonant + rakaransaya + inherent
  vowel as documented. `NoClusterBeforeVowel` states this.
- **Empty vowel sign.** A vowel sign that is found but is `""` does not by
  itself keep the inherent vowel. The code tests the sign's glyph, not
  whether a sign was found. Without a one-letter vowel key at the cursor,
  the hal kirima is written. `HalKirimaOrSign` states this.

## Model

| member | source | states |
|---|---|---|
| MappingTable.BuildTables | utils/sinhalaEngine.ts:4-9 | The module-load loop leaves the vowel and consonant tables equal to `Built` over the whole entry list, in visiting order. |
| MappingTable.BuiltKeys | utils/sinhalaEngine.ts:6-8 | A key is in a table exactly when some entry of a category feeding that table carries it: `Vowels` for vowels, `Consonants` or `Special` for consonants. |
| MappingTable.BuiltLastWins | utils/sinhalaEngine.ts:6-8 | For a duplicated key, the table holds the glyph of the last entry of a feeding category that carries it. |
| MappingTable.BuiltAppend | utils/sinhalaEngine.ts:6-9 | Visiting two lists in turn gives the first list's table overridden key by key by the second's. |
| MappingTable.UnknownCategoryDropped | utils/sinhalaEngine.ts:7-8 | An entry whose category is none of `Vowels`, `Consonants`, `Special` changes neither table. |
| SinhalaEngine.ConsonantBase | utils/sinhalaEngine.ts:35-38 | Longest match first. No base exactly when the 3-, 2- and 1-character keys are all absent or `""`. A hit has length 1 to 3, its key is truthy, its glyph is that key's, and every longer key is not truthy. |
| SinhalaEngine.ClusterMark | utils/sinhalaEngine.ts:42-54 | Rakaransaya exactly when the next character is `r` and the one after it is not a truthy one-letter vowel key (end of text included). Yansaya exactly under the same test for `y`. Otherwise nothing. A mark consumes exactly one character. |
| SinhalaEngine.VowelSign | utils/sinhalaEngine.ts:56-65 | No sign exactly when neither the 2-character key nor the character at the cursor is defined in the sign table. A defined 2-character key wins with length 2. Otherwise the one-character sign is taken with length 1, even when its glyph is `""`. |
| SinhalaEngine.StandaloneVowel | utils/sinhalaEngine.ts:77-86 | No vowel exactly when the 2- and 1-character keys are both not truthy. A hit has length 1 or 2, its key is truthy, its glyph is that key's, and a 1-character hit means the 2-character key is not truthy. |
| SinhalaEngine.ConsonantStep | utils/sinhalaEngine.ts:40-75 | After a base of length `len` at `i`, the cursor lands between `i + len` and `i + len + 3`: at most one cluster character and a sign of at most two. |
| SinhalaEngine.AttachVowel | utils/sinhalaEngine.ts:67-74 | The cursor after the sign-or-hal-kirima decision lies between the position after the cluster mark and that position plus the sign's length. |
| SinhalaEngine.ScanStep | utils/sinhalaEngine.ts:18-92 | Every iteration emits something and advances the cursor by 1 to 6. A non-letter is emitted verbatim with the cursor advanced by exactly one. For a letter, a consonant base takes precedence and gives `ConsonantStep`. A standalone vowel is used only when no consonant key matches and advances by its length. A letter in neither table is copied with the cursor advanced by exactly one. |
| SinhalaEngine.TransliterateFrom | utils/sinhalaEngine.ts:17-93 | The output from a cursor is empty exactly when the cursor is at or past the end of the text. |
| SinhalaEngine.Transliterated | utils/sinhalaEngine.ts:11-12 | The transliteration is empty exactly when the input is empty. |
| SinhalaEngine.ScanConsonant | utils/sinhalaEngine.ts:40-75 | The consonant branch of the loop body appends and moves the cursor exactly as `ConsonantStep` describes. |
| SinhalaEngine.Transliterate | utils/sinhalaEngine.ts:11-96 | The scanning loop returns `Transliterated(t, text)`, and `""` for the empty input. |
| EngineProperties.HalKirimaOrSign | utils/sinhalaEngine.ts:67-74 | The consonant ends with the hal kirima, the cursor staying after the cluster mark, exactly when the sign glyph is `""` and no truthy one-letter vowel key is at the cursor. Otherwise it ends with the sign glyph and the cursor passes the sign. |
| EngineProperties.NoLatinLettersFrom | utils/sinhalaEngine.ts:22-27 | From a cursor with no Latin letter ahead, the rest of the text is copied verbatim. |
| EngineProperties.NoLatinLettersUnchanged | utils/sinhalaEngine.ts:22-27 | A text without Latin letters is returned unchanged. |
| EngineProperties.StepShift | utils/sinhalaEngine.ts:18-92 | One step behind any prefix emits the same and moves the same distance: the scanner never looks behind its cursor. |
| EngineProperties.ShiftFrom | utils/sinhalaEngine.ts:17-93 | The output from a cursor depends only on the text from that cursor on. |
| EngineProperties.FromAtBoundary | utils/sinhalaEngine.ts:17-93 | With Latin-letter keys, scanning `a + s` where `s` starts with a non-letter emits the scan of `a` first, then the output from the end of `a`. |
| EngineProperties.SplitAtNonLetter | utils/sinhalaEngine.ts:17-93 | With Latin-letter keys, `a + [c] + b` for a non-letter `c` transliterates to the transliteration of `a`, then `c`, then the transliteration of `b`. |
| EngineProperties.LoneConsonant | utils/sinhalaEngine.ts:35-74 | A single consonant letter gives its glyph plus the hal kirima, when the sign table has no `""` key. |
| EngineProperties.ConsonantWithSign | utils/sinhalaEngine.ts:56-69 | Consonant then vowel letter with a sign entry gives the consonant glyph plus that sign; with a `""` sign and a vowel key, the bare consonant (inherent vowel). |
| EngineProperties.ConsonantThenR | utils/sinhalaEngine.ts:44-48 | A consonant followed by a final `r` gives consonant, rakaransaya, hal kirima. |
| EngineProperties.ConsonantThenY | utils/sinhalaEngine.ts:51-54 | A consonant followed by a final `y` gives consonant, yansaya, hal kirima. |
| EngineProperties.NoClusterBeforeVowel | utils/sinhalaEngine.ts:44-74 | In consonant, `r`, vowel key, the `r` is not a cluster: the consonant gets the hal kirima and the scan resumes at the `r`. |
| EngineProperties.InherentVowelRescanned | utils/sinhalaEngine.ts:67-86 | A vowel letter with no sign entry after a consonant leaves the bare consonant glyph, and the vowel is then scanned again as a standalone vowel. |
| EngineProperties.UnrecognisedLetter | utils/sinhalaEngine.ts:89-92 | A letter that is neither a truthy consonant key nor a truthy vowel key is returned unchanged, for every table. |

## Left out

- App.tsx is not part of this model. It is the React user interface: state hooks, install prompts, local storage, clipboard, timers, rendering.
- services/geminiService.ts is not part of this model. It makes asynchronous calls to a remote generative-AI service whose answers are nondeterministic.
- constants.tsx is not part of this model. The vowel, consonant and vowel-sign tables are parameters of every operation, so the properties hold for any table contents.
- Characters are Dafny `char` values. The source indexes UTF-16 code units, and its letter test `/[a-zA-Z]/` is modelled as an ASCII range check.
- Reading past the end of the text is modelled as "no key". In JavaScript the index gives `undefined`, and `table[undefined]` looks up the key `"undefined"`. Keys inherited from `Object.prototype` are likewise treated as absent.
- Building the tables once at module load is modelled as the explicit call `BuildTables`; the engine takes the resulting `Tables` as a parameter.
- Transliterate: the table lookups of the loop body are the pure functions `ConsonantBase`, `StandaloneVowel`, `ClusterMark` and `VowelSign`, and the consonant branch is the method `ScanConsonant`. Lines 35-38, 44-65 and 78-86 are therefore not written inline.
- SinhalaEngine.ConsonantStep: its own contract states only the cursor bounds; the emitted text is stated by `EngineProperties.HalKirimaOrSign`.
- SinhalaEngine.AttachVowel: its own contract states only the cursor bounds; which branch is taken and what it emits is stated by `EngineProperties.HalKirimaOrSign`.
- EngineProperties.FromAtBoundary and EngineProperties.SplitAtNonLetter hold only for tables whose keys are non-empty runs of Latin letters (`WellFormed`). With other keys, a lookup window reaching across a non-letter could match.

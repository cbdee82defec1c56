/** The lookup tables of the Singlish transliteration engine.

    The engine reads three key-to-glyph tables: standalone vowels,
    consonants (with the "Special" modifiers merged in), and the combining
    vowel signs.  The first two are built once, at module load, by visiting
    a flat list of mapping entries in order and writing each entry into the
    table its category names; a later entry with the same key overwrites an
    earlier one.  The vowel-sign table comes ready-made from the data module
    and is taken here as it is.
 */
module MappingTable {

  /** One row of the static mapping list: the romanized form, the Sinhala
      glyph, and the category tag exactly as the data spells it
      ("Vowels", "Consonants", "Special", or anything else). */
  datatype Entry = Entry(english: string, sinhala: string, category: string)

  /** The two tables the entry list is split into. */
  datatype Table = VowelTable | ConsonantTable

  /** The three read-only tables the engine consults. */
  datatype Tables = Tables(
    vowels: map<string, string>,
    consonants: map<string, string>,
    signs: map<string, string>)

  /** Whether an entry tagged `category` is written into table `t`; a tag
      that is none of the three known ones feeds neither table. */
  predicate Feeds(category: string, t: Table)
  {
    match t
    case VowelTable => category == "Vowels"
    case ConsonantTable => category == "Consonants" || category == "Special"
  }

  /** Whether `e` writes key `k` into table `t`. */
  predicate Writes(e: Entry, t: Table, k: string)
  {
    e.english == k && Feeds(e.category, t)
  }

  /** Table `t` as it stands after the entries have been visited in order. */
  function Built(entries: seq<Entry>, t: Table): map<string, string>
  {
    if entries == [] then map[]
    else
      var e := entries[|entries| - 1];
      var before := Built(entries[..|entries| - 1], t);
      if Feeds(e.category, t) then before[e.english := e.sinhala] else before
  }

  /** `j` is the last position of `entries` that writes key `k` into `t`. */
  predicate LastWriter(entries: seq<Entry>, t: Table, k: string, j: int)
  {
    && 0 <= j < |entries|
    && Writes(entries[j], t, k)
    && forall j' :: j < j' < |entries| ==> !Writes(entries[j'], t, k)
  }

  /** A key is in a table exactly when some entry of the matching category
      carries it: nothing else gets in, and nothing of that category is lost. */
  lemma {:induction false} BuiltKeys(entries: seq<Entry>, t: Table, k: string)
    ensures k in Built(entries, t) <==> exists j :: 0 <= j < |entries| && Writes(entries[j], t, k)
  {
    if entries != [] {
      var n := |entries| - 1;
      var init := entries[..n];
      BuiltKeys(init, t, k);
      if k in Built(init, t) {
        var j :| 0 <= j < |init| && Writes(init[j], t, k);
        assert Writes(entries[j], t, k);
      }
      if exists j :: 0 <= j < |entries| && Writes(entries[j], t, k) {
        var j :| 0 <= j < |entries| && Writes(entries[j], t, k);
        if j < n {
          assert Writes(init[j], t, k);
        }
      }
    }
  }

  /** Last write wins: the glyph stored under a key is the one of the last
      entry of the matching category that carries the key. */
  lemma {:induction false} BuiltLastWins(entries: seq<Entry>, t: Table, k: string, j: int)
    requires LastWriter(entries, t, k, j)
    ensures k in Built(entries, t) && Built(entries, t)[k] == entries[j].sinhala
  {
    var n := |entries| - 1;
    var init := entries[..n];
    if j < n {
      assert LastWriter(init, t, k, j) by {
        forall j' | j < j' < |init| ensures !Writes(init[j'], t, k) {
          assert init[j'] == entries[j'];
        }
      }
      BuiltLastWins(init, t, k, j);
    }
  }

  /** Visiting two lists one after the other gives the first list's table
      overridden by the second's: later entries take precedence key by key. */
  lemma {:induction false} BuiltAppend(first: seq<Entry>, second: seq<Entry>, t: Table)
    ensures Built(first + second, t) == Built(first, t) + Built(second, t)
  {
    if second == [] {
      assert first + second == first;
    } else {
      var n := |second| - 1;
      assert (first + second)[..|first + second| - 1] == first + second[..n];
      BuiltAppend(first, second[..n], t);
    }
  }

  /** An entry whose category is none of the known ones changes neither table. */
  lemma {:induction false} UnknownCategoryDropped(entries: seq<Entry>, e: Entry, t: Table)
    requires e.category != "Vowels" && e.category != "Consonants" && e.category != "Special"
    ensures Built(entries + [e], t) == Built(entries, t)
  {
    BuiltAppend(entries, [e], t);
    assert Built([e], t) == Built([], t);
  }

  /** The module-load `forEach` that fills the vowel and consonant tables. */
  method BuildTables(entries: seq<Entry>) returns (vowels: map<string, string>, consonants: map<string, string>)
    ensures vowels == Built(entries, VowelTable)
    ensures consonants == Built(entries, ConsonantTable)
  {
    vowels, consonants := map[], map[];
    for j := 0 to |entries|
      invariant vowels == Built(entries[..j], VowelTable)
      invariant consonants == Built(entries[..j], ConsonantTable)
    {
      var m := entries[j];
      assert entries[..j + 1][..j] == entries[..j];
      if m.category == "Vowels" {
        vowels := vowels[m.english := m.sinhala];
      }
      if m.category == "Consonants" || m.category == "Special" {
        consonants := consonants[m.english := m.sinhala];
      }
    }
    assert entries[..|entries|] == entries;
  }
}

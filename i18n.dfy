/**
 * I18nProvider.tsx: the current language, restored from local storage
 * ("en" when nothing usable is stored) and written back whenever it
 * changes, and `t`, which walks a dotted key through the nested translation
 * table of that language and falls back to the key itself.  The translation
 * tables are a parameter: their file is not part of this model.
 */
module I18n {
  import opened Wrappers
  import opened JsStrings

  /** A node of a translation table: a text, or a group of named entries. */
  datatype Entry = Text(text: string) | Group(children: map<string, Entry>)

  const StorageKey: string := "fitgebit-language"
  const DefaultLanguage: string := "en"

  /** `(stored as Language) || 'en'`. */
  function InitialLanguage(stored: Option<string>): (l: string)
    ensures stored.None? || stored == Some([]) ==> l == DefaultLanguage
    ensures stored.Some? && stored.value != [] ==> l == stored.value
  {
    if stored.Some? && stored.value != [] then stored.value else DefaultLanguage
  }

  /** `value?.[k]`, with `None` for `undefined`; indexing a text finds nothing. */
  function Index(value: Option<Entry>, k: string): Option<Entry> {
    match value
    case Some(Group(children)) => if k in children then Some(children[k]) else None
    case _ => None
  }

  /** The entry reached by following `keys` one after the other from `value`. */
  function Walk(value: Option<Entry>, keys: seq<string>): Option<Entry>
    decreases |keys|
  {
    if keys == [] then value else Walk(Index(value, keys[0]), keys[1..])
  }

  /** Once a segment is missing, nothing further is found: stopping the loop there changes nothing. */
  lemma {:induction false} WalkOfMissing(keys: seq<string>)
    ensures Walk(None, keys) == None
    decreases |keys|
  {
    if keys != [] {
      WalkOfMissing(keys[1..]);
    }
  }

  /** Following `a` and then `b` is following `a + b`. */
  lemma {:induction false} WalkAppend(value: Option<Entry>, a: seq<string>, b: seq<string>)
    ensures Walk(value, a + b) == Walk(Walk(value, a), b)
    decreases |a|
  {
    if a == [] {
      assert a + b == b;
    } else {
      assert (a + b)[0] == a[0] && (a + b)[1..] == a[1..] + b;
      WalkAppend(Index(value, a[0]), a[1..], b);
    }
  }

  /** A missing prefix of the path means a missing path. */
  lemma StopsAtFirstMissing(value: Option<Entry>, keys: seq<string>, j: nat)
    requires j <= |keys| && Walk(value, keys[..j]) == None
    ensures Walk(value, keys) == None
  {
    assert keys == keys[..j] + keys[j..];
    WalkAppend(value, keys[..j], keys[j..]);
    WalkOfMissing(keys[j..]);
  }

  /** "section.name" finds the text stored under `name` in the group `section`. */
  lemma TwoSegmentKey(table: map<string, Entry>, section: string, name: string, text: string)
    requires '.' !in section && '.' !in name
    requires section in table && table[section].Group? && name in table[section].children
    requires table[section].children[name] == Text(text)
    ensures Walk(Some(Group(table)), Split(section + "." + name, '.')) == Some(Text(text))
  {
    SplitAtFirst(section, name, '.');
    SplitWithoutSeparator(name, '.');
    assert section + "." + name == section + ['.'] + name;
    assert Split(section + "." + name, '.') == [section, name];
    var start := Some(Group(table));
    assert Index(start, section) == Some(table[section]);
    assert Index(Some(table[section]), name) == Some(Text(text));
    assert [section, name][1..] == [name] && [name][1..] == [];
    assert Walk(start, [section, name]) == Walk(Some(table[section]), [name]);
    assert Walk(Some(table[section]), [name]) == Walk(Some(Text(text)), []);
  }

  class Provider {
    var language: string
    /** `translations`, by language. */
    var translations: map<string, Entry>
    /** `localStorage`. */
    var storage: map<string, string>

    /** The table of the current language, if there is one. */
    function Table(): Option<Entry>
      reads this
    {
      if language in translations then Some(translations[language]) else None
    }

    /** The state initialiser: the stored language, or "en". */
    constructor (storage: map<string, string>, translations: map<string, Entry>)
      ensures language == InitialLanguage(if StorageKey in storage then Some(storage[StorageKey]) else None)
      ensures this.storage == storage && this.translations == translations
    {
      language := InitialLanguage(if StorageKey in storage then Some(storage[StorageKey]) else None);
      this.storage := storage;
      this.translations := translations;
    }

    /** The effect on `language`: the current language is written back. */
    method Persist()
      modifies this
      ensures storage == old(storage)[StorageKey := language]
      ensures language == old(language) && translations == old(translations)
    {
      storage := storage[StorageKey := language];
    }

    /** `setLanguage`, followed by the effect it triggers. */
    method SetLanguage(lang: string)
      modifies this
      ensures language == lang && storage == old(storage)[StorageKey := lang] && translations == old(translations)
    {
      language := lang;
      Persist();
    }

    /**
     * `t`: each segment of the key is looked up in turn, stopping at the first
     * missing one.  A missing path or an empty text gives the key back; any other
     * entry found is returned as it is.
     */
    method T(key: string) returns (r: Entry)
      ensures Walk(Table(), Split(key, '.')).None? ==> r == Text(key)
      ensures Walk(Table(), Split(key, '.')) == Some(Text([])) ==> r == Text(key)
      ensures var found := Walk(Table(), Split(key, '.'));
        found.Some? && found != Some(Text([])) ==> r == found.value
    {
      var keys := Split(key, '.');
      var value := Table();
      var i := 0;
      while i < |keys|
        invariant 0 <= i <= |keys|
        invariant Walk(value, keys[i..]) == Walk(Table(), keys)
      {
        assert keys[i..][1..] == keys[i + 1..];
        value := Index(value, keys[i]);
        i := i + 1;
        if value.None? {
          WalkOfMissing(keys[i..]);
          break;
        }
      }
      if value.Some? {
        assert keys[i..] == [];
      }
      r := if value.None? || value == Some(Text([])) then Text(key) else value.value;
    }
  }
}

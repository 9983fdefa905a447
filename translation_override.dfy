/**
 * The `translation_overrides` table: site administrators' replacements for
 * translation strings, one per (locale, translation key). `upsert!` finds or
 * creates the override and updates it, `revert!` deletes overrides, and the
 * interpolation check refuses a value that drops a `%{...}` key the original
 * text uses.
 *
 * The translation backend (the original text of a key), the interpolation
 * key finder and the message-format compiler are parameters.
 */
module TranslationOverrides {
  import opened Wrappers
  import opened Text

  datatype Override = Override(locale: string, translationKey: string, value: string, compiledJs: Option<string>)

  datatype Field = LocaleField | TranslationKeyField | ValueField

  datatype OverrideError =
    | Taken
    | Blank(field: Field)
    | MissingInterpolationKeys(keys: string)

  type Overrides = map<int, Override>

  predicate Matches(o: Override, locale: string, key: string)
  {
    o.locale == locale && o.translationKey == key
  }

  /** The unique index on (locale, translation_key). */
  ghost predicate Unique(rows: Overrides)
  {
    forall a, b :: a in rows && b in rows && Matches(rows[a], rows[b].locale, rows[b].translationKey) ==> a == b
  }

  /** The message-format suffix that makes `upsert!` compile the value to JavaScript. */
  const MessageFormatSuffix := "_MF"

  /** The `compiled_js` column after `upsert!`: recompiled for a message-format key, otherwise left as it was. */
  function CompiledJs(locale: string, key: string, value: string, compile: (string, string) -> string,
                      prior: Option<string>): (r: Option<string>)
    ensures EndsWith(key, MessageFormatSuffix) ==> r == Some(compile(locale, value))
    ensures !EndsWith(key, MessageFormatSuffix) ==> r == prior
  {
    if EndsWith(key, MessageFormatSuffix) then Some(compile(locale, value)) else prior
  }

  /**
   * `check_interpolation_keys`: with an original text, the keys it uses that
   * the new value lacks, in the original's order and joined by ", ", make the
   * one error; new keys the original lacks are allowed.
   */
  function InterpolationErrors(original: Option<string>, value: string, keysOf: string -> seq<string>)
    : (r: seq<OverrideError>)
    ensures r != [] <==> original.Some? && exists k :: k in keysOf(original.value) && k !in keysOf(value)
    ensures r != [] ==> r == [MissingInterpolationKeys(Join(Difference(keysOf(original.value), keysOf(value)), ", "))]
  {
    if original.None? then []
    else
      var missing := Difference(keysOf(original.value), keysOf(value));
      if missing == [] then
        assert forall k :: k in keysOf(original.value) ==> k in keysOf(value) by {
          forall k | k in keysOf(original.value) {
            DifferenceMembers(keysOf(original.value), keysOf(value), k);
          }
        }
        []
      else
        DifferenceMembers(keysOf(original.value), keysOf(value), missing[0]);
        [MissingInterpolationKeys(Join(missing, ", "))]
  }

  /** A different row already holds the (locale, key) pair of `o`. */
  predicate Clash(rows: Overrides, self: Option<int>, o: Override)
  {
    exists k :: k in rows && Some(k) != self && Matches(rows[k], o.locale, o.translationKey)
  }

  /** `validates_presence_of :locale, :translation_key, :value`. */
  function BlankErrors(o: Override): (r: seq<OverrideError>)
    ensures Blank(LocaleField) in r <==> IsBlank(o.locale)
    ensures Blank(TranslationKeyField) in r <==> IsBlank(o.translationKey)
    ensures Blank(ValueField) in r <==> IsBlank(o.value)
    ensures forall e :: e in r ==> e.Blank?
  {
    (if IsBlank(o.locale) then [Blank(LocaleField)] else [])
    + (if IsBlank(o.translationKey) then [Blank(TranslationKeyField)] else [])
    + (if IsBlank(o.value) then [Blank(ValueField)] else [])
  }

  /** Every validation of the model, in declaration order; `self` is the row's id when it is stored. */
  function OverrideErrors(rows: Overrides, self: Option<int>, o: Override, original: Option<string>,
                          keysOf: string -> seq<string>): (r: seq<OverrideError>)
    ensures r == [] <==>
      && !Clash(rows, self, o)
      && !IsBlank(o.locale) && !IsBlank(o.translationKey) && !IsBlank(o.value)
      && InterpolationErrors(original, o.value, keysOf) == []
  {
    var blank := BlankErrors(o);
    assert blank == [] <==> !IsBlank(o.locale) && !IsBlank(o.translationKey) && !IsBlank(o.value) by {
      if blank != [] {
        assert blank[0] in blank;
      }
    }
    (if Clash(rows, self, o) then [Taken] else []) + blank + InterpolationErrors(original, o.value, keysOf)
  }

  /** Every stored row is valid: the database's NOT NULL columns are present. */
  ghost predicate Stored(rows: Overrides)
  {
    forall k :: k in rows ==> !IsBlank(rows[k].locale) && !IsBlank(rows[k].translationKey) && !IsBlank(rows[k].value)
  }

  /** The values stored for (locale, key). */
  ghost function ValuesFor(rows: Overrides, locale: string, key: string): set<string>
  {
    set k | k in rows && Matches(rows[k], locale, key) :: rows[k].value
  }

  /** The table after `revert!(locale, *keys)`: `DELETE ... WHERE locale = ? AND translation_key IN keys`. */
  function Reverted(rows: Overrides, locale: string, keys: seq<string>): (r: Overrides)
    ensures forall k :: k in r <==> k in rows && !(rows[k].locale == locale && rows[k].translationKey in keys)
    ensures forall k :: k in r ==> r[k] == rows[k]
  {
    map k | k in rows && !(rows[k].locale == locale && rows[k].translationKey in keys) :: rows[k]
  }

  class OverrideTable {
    var rows: Overrides
    /** The id the next inserted override receives. */
    var nextId: int

    ghost predicate Valid()
      reads this
    {
      (forall k :: k in rows ==> k < nextId) && Unique(rows) && Stored(rows)
    }

    constructor ()
      ensures Valid() && rows == map[]
    {
      rows := map[];
      nextId := 0;
    }

    /** `find_or_initialize_by(locale:, translation_key:)`: the id of the stored override, if any. */
    method Find(locale: string, key: string) returns (r: Option<int>)
      ensures r.Some? ==> r.value in rows && Matches(rows[r.value], locale, key)
      ensures r.None? ==> forall k :: k in rows ==> !Matches(rows[k], locale, key)
    {
      var todo := rows.Keys;
      while todo != {}
        invariant todo <= rows.Keys
        invariant forall k :: k in rows && k !in todo ==> !Matches(rows[k], locale, key)
        decreases |todo|
      {
        var k := Pick(todo);
        if Matches(rows[k], locale, key) {
          return Some(k);
        }
        todo := todo - {k};
      }
      return None;
    }

    /**
     * `upsert!(locale, key, value)`. The record found or initialised gets the
     * new value (and, for a message-format key, its compiled JavaScript); it
     * is written only when it validates, and only then does the translation
     * cache get flushed (`flushed`). The record is returned either way, with
     * its errors.
     */
    method Upsert(locale: string, key: string, value: string, original: Option<string>,
                  keysOf: string -> seq<string>, compile: (string, string) -> string)
      returns (record: Override, errors: seq<OverrideError>, flushed: bool)
      requires Valid()
      modifies this
      ensures Valid()
      ensures record.locale == locale && record.translationKey == key && record.value == value
      ensures flushed == (errors == [])
      ensures var found := FoundIn(old(rows), locale, key);
        && record.compiledJs == CompiledJs(locale, key, value, compile,
                                           if found.Some? then old(rows)[found.value].compiledJs else None)
        && errors == OverrideErrors(old(rows), found, record, original, keysOf)
        && (errors == [] ==>
              var id := if found.Some? then found.value else old(nextId);
              rows == old(rows)[id := record] && nextId == (if found.Some? then old(nextId) else old(nextId) + 1))
        && (errors != [] ==> rows == old(rows) && nextId == old(nextId))
    {
      var found := Find(locale, key);
      FoundInUnique(rows, locale, key, found);
      var prior := if found.Some? then rows[found.value].compiledJs else None;
      record := Override(locale, key, value, CompiledJs(locale, key, value, compile, prior));
      errors := OverrideErrors(rows, found, record, original, keysOf);
      flushed := errors == [];
      if errors != [] {
        return;
      }
      var id := if found.Some? then found.value else nextId;
      UpsertKeepsUnique(rows, id, record, found);
      rows := rows[id := record];
      if found.None? {
        nextId := nextId + 1;
      }
    }

    /** `revert!(locale, *keys)`: deletes the overrides of those keys in that locale. */
    method Revert(locale: string, keys: seq<string>)
      requires Valid()
      modifies this
      ensures Valid()
      ensures rows == Reverted(old(rows), locale, keys) && nextId == old(nextId)
    {
      rows := Reverted(rows, locale, keys);
    }
  }

  /** The id of the override of (locale, key) in a table that keeps the unique index. */
  ghost function FoundIn(rows: Overrides, locale: string, key: string): (r: Option<int>)
    requires Unique(rows)
    ensures r.Some? ==> r.value in rows && Matches(rows[r.value], locale, key)
    ensures r.None? ==> forall k :: k in rows ==> !Matches(rows[k], locale, key)
  {
    if exists k :: k in rows && Matches(rows[k], locale, key) then
      var k :| k in rows && Matches(rows[k], locale, key); Some(k)
    else None
  }

  /** Under the unique index, the id `Find` returns is the one `FoundIn` names. */
  lemma FoundInUnique(rows: Overrides, locale: string, key: string, found: Option<int>)
    requires Unique(rows)
    requires found.Some? ==> found.value in rows && Matches(rows[found.value], locale, key)
    requires found.None? ==> forall k :: k in rows ==> !Matches(rows[k], locale, key)
    ensures found == FoundIn(rows, locale, key)
  {
    var f := FoundIn(rows, locale, key);
    if found.Some? {
      assert f.Some?;
      assert Matches(rows[f.value], rows[found.value].locale, rows[found.value].translationKey);
      assert f.value == found.value;
      assert f == found;
    }
    assert f == found;
  }

  /** Writing the found-or-new row keeps the unique index and the presence of every column. */
  lemma UpsertKeepsUnique(rows: Overrides, id: int, o: Override, found: Option<int>)
    requires Unique(rows) && Stored(rows)
    requires found.Some? ==> found.value in rows && Matches(rows[found.value], o.locale, o.translationKey)
    requires found.None? ==> id !in rows
    requires found.Some? ==> id == found.value
    requires !Clash(rows, found, o)
    requires !IsBlank(o.locale) && !IsBlank(o.translationKey) && !IsBlank(o.value)
    ensures Unique(rows[id := o]) && Stored(rows[id := o])
  {
  }

  /** The uniqueness validation never fires in `upsert!`: the row it would clash with is the one it found. */
  lemma {:induction false} UpsertNeverTaken(rows: Overrides, locale: string, key: string, o: Override)
    requires Unique(rows)
    requires Matches(o, locale, key)
    ensures !Clash(rows, FoundIn(rows, locale, key), o)
  {
    var found := FoundIn(rows, locale, key);
    forall k | k in rows && Matches(rows[k], locale, key)
      ensures Some(k) == found
    {
      assert found.Some?;
    }
  }

  /**
   * After a successful `upsert!` the table holds exactly the given value for
   * (locale, key), and every other pair keeps its values.
   */
  lemma UpsertEffect(rows: Overrides, id: int, o: Override, l: string, k: string)
    requires Unique(rows)
    requires id in rows ==> Matches(rows[id], o.locale, o.translationKey)
    requires id !in rows ==> forall j :: j in rows ==> !Matches(rows[j], o.locale, o.translationKey)
    ensures Matches(o, l, k) ==> ValuesFor(rows[id := o], l, k) == {o.value}
    ensures !Matches(o, l, k) ==> ValuesFor(rows[id := o], l, k) == ValuesFor(rows, l, k)
  {
    var r := rows[id := o];
    if Matches(o, l, k) {
      assert o.value in ValuesFor(r, l, k) by {
        assert id in r && Matches(r[id], l, k);
      }
      forall j | j in rows && j != id
        ensures !Matches(rows[j], l, k)
      {
        if id in rows {
          assert Matches(rows[id], l, k);
        }
      }
    } else {
      forall v | v in ValuesFor(r, l, k)
        ensures v in ValuesFor(rows, l, k)
      {
        var j :| j in r && Matches(r[j], l, k) && r[j].value == v;
        assert j != id && j in rows && Matches(rows[j], l, k);
      }
      forall v | v in ValuesFor(rows, l, k)
        ensures v in ValuesFor(r, l, k)
      {
        var j :| j in rows && Matches(rows[j], l, k) && rows[j].value == v;
        assert j in r && r[j] == rows[j];
      }
    }
  }

  /** After `revert!` no override of a listed key remains in that locale; other overrides stay. */
  lemma RevertEffect(rows: Overrides, locale: string, keys: seq<string>, l: string, k: string)
    ensures l == locale && k in keys ==> ValuesFor(Reverted(rows, locale, keys), l, k) == {}
    ensures !(l == locale && k in keys) ==> ValuesFor(Reverted(rows, locale, keys), l, k) == ValuesFor(rows, l, k)
  {
    var r := Reverted(rows, locale, keys);
    if l == locale && k in keys {
      forall j | j in r
        ensures !Matches(r[j], l, k)
      {
      }
      assert ValuesFor(r, l, k) == {};
    } else {
      forall v | v in ValuesFor(rows, l, k)
        ensures v in ValuesFor(r, l, k)
      {
        var j :| j in rows && Matches(rows[j], l, k) && rows[j].value == v;
        assert j in r;
      }
    }
  }

  /** The message for an original text `%{first} %{second}` and a new value using neither key. */
  lemma MissingKeysMessage(original: string, value: string, keysOf: string -> seq<string>)
    requires keysOf(original) == ["first", "second"]
    requires "first" !in keysOf(value) && "second" !in keysOf(value)
    ensures InterpolationErrors(Some(original), value, keysOf) == [MissingInterpolationKeys("first, second")]
  {
    var nw := keysOf(value);
    assert Difference(["second"], nw) == ["second"] by {
      assert ["second"][1..] == [];
    }
    assert Difference(["first", "second"], nw) == ["first", "second"] by {
      assert ["first", "second"][1..] == ["second"];
    }
    assert Join(["first", "second"], ", ") == "first, second" by {
      assert ["first", "second"][1..] == ["second"];
    }
  }
}

/**
 * `set_translations(options)`: for each locale key, find the record's
 * translation row for that locale or build a new one, then update it with
 * the attribute hash given for that locale.
 */
module Translations {
  import opened Wrappers
  import opened Declaration

  /** The options hash, as its entries in key order: a locale and the attributes to store for it. */
  type TranslationOptions = seq<(Locale, map<string, Value>)>

  /** `translations.find_by_locale(locale)`: the first row whose locale column is `locale`. */
  function FindByLocale(rows: seq<TranslationRow>, locale: string): (r: Option<nat>)
    ensures r.Some? ==> r.value < |rows| && rows[r.value].localeColumn == locale
    ensures r.Some? ==> forall j :: 0 <= j < r.value ==> rows[j].localeColumn != locale
    ensures r.None? <==> forall j :: 0 <= j < |rows| ==> rows[j].localeColumn != locale
  {
    if |rows| == 0 then None
    else if rows[0].localeColumn == locale then Some(0)
    else
      match FindByLocale(rows[1..], locale)
      case Some(i) => Some(i + 1)
      case None => None
  }

  /** `update_attributes!(attributes)`: the given columns take the given values, the others keep theirs. */
  function UpdateAttributes(row: TranslationRow, attributes: map<string, Value>): TranslationRow
  {
    row.(values := row.values + attributes)
  }

  /** Find-or-build the row for `locale`, then update it. */
  function Upsert(rows: seq<TranslationRow>, locale: string, attributes: map<string, Value>): seq<TranslationRow>
  {
    match FindByLocale(rows, locale)
    case Some(i) => rows[i := UpdateAttributes(rows[i], attributes)]
    case None => rows + [UpdateAttributes(TranslationRow(locale, map[]), attributes)]
  }

  /** The rows after `set_translations` has handled every entry of `options`, in key order. */
  function SetTranslations(rows: seq<TranslationRow>, options: TranslationOptions): seq<TranslationRow>
  {
    if |options| == 0 then rows
    else
      var (locale, attributes) := options[|options| - 1];
      Upsert(SetTranslations(rows, options[..|options| - 1]), locale.name, attributes)
  }

  /** No hash given for `locale` in `options` names the column `column`. */
  ghost predicate NotNamedFor(options: TranslationOptions, locale: string, column: string)
  {
    forall m :: 0 <= m < |options| && options[m].0.name == locale ==> column !in options[m].1
  }

  /** At most one row per locale: the invariant of the translation table. */
  ghost predicate DistinctLocales(rows: seq<TranslationRow>)
  {
    forall i, j :: 0 <= i < j < |rows| ==> rows[i].localeColumn != rows[j].localeColumn
  }

  /** The row `row` holds every value of `attributes`. */
  ghost predicate Holds(row: TranslationRow, attributes: map<string, Value>)
  {
    forall k :: k in attributes ==> k in row.values && row.values[k] == attributes[k]
  }

  /**
   * One find-or-build-and-update: the locale's row now holds the given
   * values; a row is added only when the locale had none; every row keeps
   * its locale, and every row of another locale is untouched.
   */
  lemma UpsertEffect(rows: seq<TranslationRow>, locale: string, attributes: map<string, Value>)
    ensures var r := Upsert(rows, locale, attributes);
      && |r| == |rows| + (if FindByLocale(rows, locale).None? then 1 else 0)
      && FindByLocale(r, locale).Some?
      && Holds(r[FindByLocale(r, locale).value], attributes)
      && (forall j :: 0 <= j < |r| ==> r[j].localeColumn == if j < |rows| then rows[j].localeColumn else locale)
      && (forall j :: 0 <= j < |rows| && rows[j].localeColumn != locale ==> r[j] == rows[j])
  {
    var r := Upsert(rows, locale, attributes);
    match FindByLocale(rows, locale)
    case Some(i) =>
      assert r[i].localeColumn == locale;
      assert FindByLocale(r, locale) == Some(i) by {
        assert forall j :: 0 <= j < i ==> r[j].localeColumn != locale;
      }
    case None =>
      assert r[|rows|].localeColumn == locale;
      assert FindByLocale(r, locale) == Some(|rows|) by {
        assert forall j :: 0 <= j < |rows| ==> r[j].localeColumn != locale;
      }
  }

  /**
   * Only the found row changes, and it keeps the columns the hash does not
   * name; a built row holds exactly the hash.
   */
  lemma UpsertColumns(rows: seq<TranslationRow>, locale: string, attributes: map<string, Value>)
    ensures var r := Upsert(rows, locale, attributes);
      && (FindByLocale(rows, locale).Some? ==>
            var i := FindByLocale(rows, locale).value;
            && (forall j :: 0 <= j < |rows| && j != i ==> r[j] == rows[j])
            && r[i].localeColumn == rows[i].localeColumn
            && (forall k :: k in rows[i].values && k !in attributes ==>
                  k in r[i].values && r[i].values[k] == rows[i].values[k])
            && (forall k :: k in r[i].values ==> k in rows[i].values || k in attributes))
      && (FindByLocale(rows, locale).None? ==> r[..|rows|] == rows && r[|rows|].values == attributes)
  {
  }

  /** Find-or-build never creates a second row for a locale. */
  lemma UpsertKeepsDistinct(rows: seq<TranslationRow>, locale: string, attributes: map<string, Value>)
    requires DistinctLocales(rows)
    ensures DistinctLocales(Upsert(rows, locale, attributes))
  {
    UpsertEffect(rows, locale, attributes);
  }

  /**
   * `set_translations` keeps at most one row per locale, leaves every row
   * of a locale it was not given unchanged, adds rows only for locales it
   * was given.
   */
  lemma {:induction false} SetTranslationsFrame(rows: seq<TranslationRow>, options: TranslationOptions)
    ensures var r := SetTranslations(rows, options);
      && |r| >= |rows|
      && (DistinctLocales(rows) ==> DistinctLocales(r))
      && (forall j :: 0 <= j < |rows| ==> r[j].localeColumn == rows[j].localeColumn)
      && (forall j :: 0 <= j < |rows| && (forall k :: 0 <= k < |options| ==> options[k].0.name != rows[j].localeColumn)
            ==> r[j] == rows[j])
      && (forall j :: |rows| <= j < |r| ==> exists k :: 0 <= k < |options| && options[k].0.name == r[j].localeColumn)
  {
    if |options| > 0 {
      var init := options[..|options| - 1];
      var (locale, attributes) := options[|options| - 1];
      var before := SetTranslations(rows, init);
      SetTranslationsFrame(rows, init);
      UpsertEffect(before, locale.name, attributes);
      if DistinctLocales(rows) {
        UpsertKeepsDistinct(before, locale.name, attributes);
      }
      var r := SetTranslations(rows, options);
      forall j | |rows| <= j < |r|
        ensures exists k :: 0 <= k < |options| && options[k].0.name == r[j].localeColumn
      {
        if j < |before| {
          var k :| 0 <= k < |init| && init[k].0.name == before[j].localeColumn;
          assert options[k] == init[k];
        } else {
          assert options[|options| - 1].0.name == r[j].localeColumn;
        }
      }
      forall j | 0 <= j < |rows| && (forall k :: 0 <= k < |options| ==> options[k].0.name != rows[j].localeColumn)
        ensures r[j] == rows[j]
      {
        assert forall k :: 0 <= k < |init| ==> init[k] == options[k];
      }
    }
  }

  /**
   * `set_translations` keeps every column of an existing row that no hash
   * given for that row's locale names.
   */
  lemma {:induction false} SetTranslationsKeepsColumns(rows: seq<TranslationRow>, options: TranslationOptions)
    ensures var r := SetTranslations(rows, options);
      && |r| >= |rows|
      && (forall j :: 0 <= j < |rows| ==> r[j].localeColumn == rows[j].localeColumn)
      && (forall j, c :: 0 <= j < |rows| && c in rows[j].values && NotNamedFor(options, rows[j].localeColumn, c) ==>
            c in r[j].values && r[j].values[c] == rows[j].values[c])
      && (forall j, c :: 0 <= j < |rows| && c !in rows[j].values && NotNamedFor(options, rows[j].localeColumn, c) ==>
            c !in r[j].values)
  {
    if |options| > 0 {
      var init := options[..|options| - 1];
      var (locale, attributes) := options[|options| - 1];
      var before := SetTranslations(rows, init);
      SetTranslationsKeepsColumns(rows, init);
      UpsertEffect(before, locale.name, attributes);
      UpsertColumns(before, locale.name, attributes);
      var r := SetTranslations(rows, options);
      forall j, c | 0 <= j < |rows| && c in rows[j].values && NotNamedFor(options, rows[j].localeColumn, c)
        ensures c in r[j].values && r[j].values[c] == rows[j].values[c]
      {
        assert forall m :: 0 <= m < |init| ==> init[m] == options[m];
        assert NotNamedFor(init, rows[j].localeColumn, c);
        if before[j].localeColumn == locale.name {
          assert c !in options[|options| - 1].1;
        }
      }
      forall j, c | 0 <= j < |rows| && c !in rows[j].values && NotNamedFor(options, rows[j].localeColumn, c)
        ensures c !in r[j].values
      {
        assert forall m :: 0 <= m < |init| ==> init[m] == options[m];
        assert NotNamedFor(init, rows[j].localeColumn, c);
        if before[j].localeColumn == locale.name {
          assert c !in options[|options| - 1].1;
        }
      }
    }
  }

  /** The columns that the hashes given for `locale` name, together. */
  ghost function NamedColumns(options: TranslationOptions, locale: string): (r: set<string>)
    ensures forall c :: c in r <==> exists m :: 0 <= m < |options| && options[m].0.name == locale && c in options[m].1
  {
    if |options| == 0 then {}
    else
      var init := options[..|options| - 1];
      var last := options[|options| - 1];
      assert forall m :: 0 <= m < |init| ==> init[m] == options[m];
      NamedColumns(init, locale) + (if last.0.name == locale then last.1.Keys else {})
  }

  /** One find-or-build-and-update keeps every row's columns within those named for its locale. */
  lemma UpsertWithinNamed(rows: seq<TranslationRow>, from: nat, options: TranslationOptions)
    requires |options| > 0 && from <= |rows|
    requires forall j :: from <= j < |rows| ==>
      rows[j].values.Keys <= NamedColumns(options[..|options| - 1], rows[j].localeColumn)
    ensures var last := options[|options| - 1];
      var r := Upsert(rows, last.0.name, last.1);
      forall j :: from <= j < |r| ==> r[j].values.Keys <= NamedColumns(options, r[j].localeColumn)
  {
    var last := options[|options| - 1];
    UpsertEffect(rows, last.0.name, last.1);
    UpsertColumns(rows, last.0.name, last.1);
  }

  /**
   * A row that `set_translations` builds holds only columns that some hash
   * given for its locale names.
   */
  lemma {:induction false} SetTranslationsBuiltColumns(rows: seq<TranslationRow>, options: TranslationOptions)
    ensures var r := SetTranslations(rows, options);
      && |r| >= |rows|
      && (forall j :: |rows| <= j < |r| ==> r[j].values.Keys <= NamedColumns(options, r[j].localeColumn))
  {
    if |options| > 0 {
      var init := options[..|options| - 1];
      var last := options[|options| - 1];
      SetTranslationsBuiltColumns(rows, init);
      var before := SetTranslations(rows, init);
      UpsertEffect(before, last.0.name, last.1);
      UpsertWithinNamed(before, |rows|, options);
    }
  }

  /** A lookup that succeeds keeps its answer in any list that agrees on the locales up to it. */
  lemma FindByLocaleAgrees(a: seq<TranslationRow>, b: seq<TranslationRow>, locale: string)
    requires FindByLocale(a, locale).Some?
    requires |a| <= |b|
    requires forall j :: 0 <= j < |a| ==> b[j].localeColumn == a[j].localeColumn
    ensures FindByLocale(b, locale) == FindByLocale(a, locale)
  {
    var i := FindByLocale(a, locale).value;
    assert b[i].localeColumn == locale;
  }

  /**
   * With distinct locale keys (a hash keyed by locale), every given
   * locale ends up with a row, found by its locale, holding the values
   * given for it.
   */
  lemma {:induction false} SetTranslationsStores(rows: seq<TranslationRow>, options: TranslationOptions, k: nat)
    requires k < |options|
    requires forall i, j :: 0 <= i < j < |options| ==> options[i].0.name != options[j].0.name
    ensures var r := SetTranslations(rows, options);
      FindByLocale(r, options[k].0.name).Some? && Holds(r[FindByLocale(r, options[k].0.name).value], options[k].1)
  {
    var n := |options|;
    var init := options[..n - 1];
    var last := options[n - 1];
    var before := SetTranslations(rows, init);
    var r := SetTranslations(rows, options);
    assert r == Upsert(before, last.0.name, last.1);
    UpsertEffect(before, last.0.name, last.1);
    if k < n - 1 {
      assert init[k] == options[k];
      SetTranslationsStores(rows, init, k);
      var name := options[k].0.name;
      var i := FindByLocale(before, name).value;
      assert name != last.0.name;
      FindByLocaleAgrees(before, r, name);
      assert r[i] == before[i];
    }
  }
}

/**
 * What `translates` declares for a record type: the translation table's name,
 * the translation row's locale column, the presence-validated translated
 * attributes (`required_attributes`) and the conditions of the
 * `with_translations` scope built from them.
 */
module Declaration {
  import opened Wrappers
  import opened Text

  /** A locale as a Ruby symbol (`:en`, `:"de-CH"`); `name` is its `to_s`. */
  datatype Locale = Locale(name: string)

  /** An attribute value as the record layer holds it; `Nil` is Ruby's nil. */
  datatype Value = Nil | Str(s: string) | Number(n: int) | Flag(b: bool)

  /**
   * One row of a translation table. The `locale` column stores the locale
   * as a string; the other columns are the translated attributes, a column
   * that is absent from `values` being NULL.
   */
  datatype TranslationRow = TranslationRow(localeColumn: string, values: map<string, Value>)
  {
    /** `Translation#locale`: the stored string read back as a symbol. */
    function ReadLocale(): Locale
    {
      Locale(localeColumn)
    }

    /** `Translation#locale=`: stores the symbol's string form, nothing else changes. */
    function WriteLocale(l: Locale): (r: TranslationRow)
      ensures r.ReadLocale() == l
      ensures r.values == values
    {
      this.(localeColumn := l.name)
    }
  }

  /** Writing back the locale a row reads changes nothing. */
  lemma LocaleRoundTrip(row: TranslationRow)
    ensures row.WriteLocale(row.ReadLocale()) == row
  {
  }

  const TranslationsSuffix: string := "_translations"

  /** The table name used when `translates` is given no `:table_name`. */
  function DefaultTranslationTableName(singularTableName: string): string
  {
    singularTableName + TranslationsSuffix
  }

  /** `options[:table_name] ||= "#{table_name.singularize}_translations"`. */
  function TranslationTableName(singularTableName: string, tableNameOption: Option<string>): string
  {
    tableNameOption.GetOr(DefaultTranslationTableName(singularTableName))
  }

  /**
   * An explicit `:table_name` is used as given; otherwise the name is the
   * singular base table name followed by `_translations`, so two record
   * types with different singular table names never share a default
   * translation table.
   */
  lemma TranslationTableNameRule(singularTableName: string, other: string, tableNameOption: Option<string>)
    ensures tableNameOption.Some? ==> TranslationTableName(singularTableName, tableNameOption) == tableNameOption.value
    ensures tableNameOption.None? ==>
      var r := TranslationTableName(singularTableName, tableNameOption);
      |r| == |singularTableName| + |TranslationsSuffix| &&
      r[..|singularTableName|] == singularTableName && r[|singularTableName|..] == TranslationsSuffix
    ensures DefaultTranslationTableName(singularTableName) == DefaultTranslationTableName(other) ==>
      singularTableName == other
  {
    var a := DefaultTranslationTableName(singularTableName);
    var b := DefaultTranslationTableName(other);
    assert a[..|singularTableName|] == singularTableName;
    assert b[..|other|] == other;
  }

  /** The kind of a validation reflection (`validation.macro`). */
  datatype Macro = ValidatesPresenceOf | OtherValidation(macroName: string)

  /** One entry of `reflect_on_all_validations`: one macro on one attribute. */
  datatype Validation = Validation(macro: Macro, name: string)

  /**
   * `required_attributes`: the names of the presence validations that are
   * also translated attribute names, in validation order.
   */
  function RequiredAttributes(validations: seq<Validation>, translated: seq<string>): (r: seq<string>)
    ensures |r| <= |validations|
    ensures forall a :: a in r <==> a in translated && Validation(ValidatesPresenceOf, a) in validations
  {
    if |validations| == 0 then []
    else
      var v := validations[0];
      var rest := RequiredAttributes(validations[1..], translated);
      assert validations == [v] + validations[1..];
      if v.macro == ValidatesPresenceOf && v.name in translated then [v.name] + rest else rest
  }

  /** Selection keeps validation order: it distributes over concatenation. */
  lemma {:induction false} RequiredAttributesAppend(front: seq<Validation>, back: seq<Validation>, translated: seq<string>)
    ensures RequiredAttributes(front + back, translated)
         == RequiredAttributes(front, translated) + RequiredAttributes(back, translated)
  {
    if |front| > 0 {
      assert (front + back)[1..] == front[1..] + back;
      RequiredAttributesAppend(front[1..], back, translated);
    } else {
      assert front + back == back;
    }
  }

  /** `User` translates `name` and validates the presence of `name` and `email`. */
  lemma UserRequiredAttributes()
    ensures RequiredAttributes([Validation(ValidatesPresenceOf, "name"), Validation(ValidatesPresenceOf, "email")], ["name"])
         == ["name"]
  {
  }

  /** `Post` translates `subject` and `content` and validates the presence of `subject`. */
  lemma PostRequiredAttributes()
    ensures RequiredAttributes([Validation(ValidatesPresenceOf, "subject")], ["subject", "content"]) == ["subject"]
  {
  }

  /** The predicate `with_translations` emits for one required attribute. */
  function NotNullPredicate(quotedTable: string, attribute: string): string
  {
    quotedTable + "." + attribute + " IS NOT NULL"
  }

  /** The predicate `with_translations` adds last, bound to the requested locale. */
  function LocalePredicate(quotedTable: string): string
  {
    quotedTable + ".locale = ?"
  }

  /** Different attributes give different IS NOT NULL predicates. */
  lemma NotNullPredicateInjective(quotedTable: string, a: string, b: string)
    requires NotNullPredicate(quotedTable, a) == NotNullPredicate(quotedTable, b)
    ensures a == b
  {
    var p := NotNullPredicate(quotedTable, a);
    var n := |quotedTable| + 1;
    assert |a| == |b|;
    assert p[n..n + |a|] == a;
    assert NotNullPredicate(quotedTable, b)[n..n + |b|] == b;
  }

  /** No IS NOT NULL predicate is the locale predicate: they end differently. */
  lemma NotNullIsNotLocalePredicate(quotedTable: string, a: string)
    ensures NotNullPredicate(quotedTable, a) != LocalePredicate(quotedTable)
  {
    var p := NotNullPredicate(quotedTable, a);
    var q := LocalePredicate(quotedTable);
    assert p[|p| - 1] == 'L';
    assert q[|q| - 1] == '?';
  }

  /** `required_attributes.map { ... IS NOT NULL }`: one predicate per required attribute, in order. */
  function NotNullPredicates(quotedTable: string, required: seq<string>): (r: seq<string>)
    ensures |r| == |required|
    ensures forall i :: 0 <= i < |r| ==> r[i] == NotNullPredicate(quotedTable, required[i])
  {
    if |required| == 0 then []
    else [NotNullPredicate(quotedTable, required[0])] + NotNullPredicates(quotedTable, required[1..])
  }

  /** The condition list of the `with_translations` scope: the IS NOT NULL predicates, then the locale one. */
  function WithTranslationsConditions(quotedTable: string, required: seq<string>): seq<string>
  {
    NotNullPredicates(quotedTable, required) + [LocalePredicate(quotedTable)]
  }

  /**
   * The scope's conditions demand a non-NULL column for an attribute exactly
   * when that attribute is required: translated and presence-validated.
   */
  lemma WithTranslationsGatesRequired(quotedTable: string, validations: seq<Validation>, translated: seq<string>, a: string)
    ensures var conditions := WithTranslationsConditions(quotedTable, RequiredAttributes(validations, translated));
      NotNullPredicate(quotedTable, a) in conditions <==> a in RequiredAttributes(validations, translated)
  {
    var required := RequiredAttributes(validations, translated);
    var conditions := WithTranslationsConditions(quotedTable, required);
    var nn := NotNullPredicates(quotedTable, required);
    if NotNullPredicate(quotedTable, a) in conditions {
      NotNullIsNotLocalePredicate(quotedTable, a);
      var i :| 0 <= i < |nn| && nn[i] == NotNullPredicate(quotedTable, a);
      NotNullPredicateInjective(quotedTable, a, required[i]);
    }
    if a in required {
      var i :| 0 <= i < |required| && required[i] == a;
      assert conditions[i] == NotNullPredicate(quotedTable, a);
    }
  }

  /** What the `with_translations` scope hands to the finder. */
  datatype Scope = Scope(includes: string, clause: string, locale: Locale)

  /**
   * `with_translations(locale)`: include the translations, join the
   * conditions with AND, bind the locale. The clause ends with the locale
   * predicate and names every required attribute's IS NOT NULL predicate.
   */
  function WithTranslations(quotedTable: string, required: seq<string>, locale: Locale): (s: Scope)
    ensures s.includes == "translations" && s.locale == locale
    ensures |s.clause| >= |LocalePredicate(quotedTable)|
    ensures OccursAt(LocalePredicate(quotedTable), s.clause, |s.clause| - |LocalePredicate(quotedTable)|)
    ensures forall a :: a in required ==> Contains(s.clause, NotNullPredicate(quotedTable, a))
  {
    var conditions := WithTranslationsConditions(quotedTable, required);
    var clause := Join(conditions, " AND ");
    JoinEndsWithLast(conditions, " AND ");
    assert forall a :: a in required ==> Contains(clause, NotNullPredicate(quotedTable, a)) by {
      forall a | a in required
        ensures Contains(clause, NotNullPredicate(quotedTable, a))
      {
        var i :| 0 <= i < |required| && required[i] == a;
        var at := JoinContainsPart(conditions, " AND ", i);
        assert OccursAt(NotNullPredicate(quotedTable, a), clause, at);
      }
    }
    Scope("translations", clause, locale)
  }
}

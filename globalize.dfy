/**
 * The stateful part of `Globalize::ActiveRecord`: the current-locale slot
 * shared by every record type, the class-level declaration state of one
 * record type (`ActMacro` and `ClassMethods`), and the per-record
 * attribute view (`InstanceMethods`).
 */
module Globalize {
  import opened Wrappers
  import opened Text
  import opened Declaration
  import opened Finder
  import Translations

  /**
   * How the block given to `with_locale` ended, leaving the shared slot
   * holding `localeAfter` (the block may itself assign the locale): it
   * returned a value normally; it left by `break value`, which makes
   * `with_locale` return that value at once; or it escaped past
   * `with_locale` altogether (a raise, a `throw`, or a `return` from the
   * method around the block), named by `exception`.
   */
  datatype BlockOutcome<R> =
    | Returned(value: R, localeAfter: Option<Locale>)
    | Broke(value: R, localeAfter: Option<Locale>)
    | Raised(exception: string, localeAfter: Option<Locale>)

  /**
   * `@@locale`. It is a class variable of the `ActMacro` module, so one
   * slot serves every record type. None stands for both "never assigned"
   * and nil.
   */
  class SharedLocale {
    var current: Option<Locale>

    constructor ()
      ensures current == None
    {
      current := None;
    }

    /** `locale`: `defined?(@@locale) && @@locale`. */
    function CurrentLocale(): Option<Locale>
      reads this
    {
      current
    }

    /** `locale=`. */
    method SetLocale(l: Option<Locale>)
      modifies this
      ensures current == l
    {
      current := l;
    }

    /**
     * `with_locale(l) { ... }`: the block runs with the locale set to `l`
     * and its result is returned. The previous locale is put back only
     * when the block returns normally. A `break value` makes `with_locale`
     * return that value, and an escape (raise, `throw`, `return`)
     * propagates; in both cases the slot keeps whatever the block left
     * in it.
     */
    method WithLocale<R>(l: Option<Locale>, block: Option<Locale> -> BlockOutcome<R>) returns (r: Result<R, string>)
      modifies this
      ensures r == match block(l)
                   case Returned(v, _) => Success(v)
                   case Broke(v, _) => Success(v)
                   case Raised(e, _) => Failure(e)
      ensures block(l).Returned? ==> current == old(current)
      ensures !block(l).Returned? ==> current == block(l).localeAfter
    {
      var previous := current;
      current := l;
      var outcome := block(current);
      current := outcome.localeAfter;
      match outcome
      case Returned(v, _) =>
        current := previous;
        r := Success(v);
      case Broke(v, _) =>
        r := Success(v);
      case Raised(e, _) =>
        r := Failure(e);
    }
  }

  /** The names of a list, as a set. */
  function NameSet(names: seq<string>): (r: set<string>)
    ensures forall a :: a in r <==> a in names
  {
    set a | a in names
  }

  /** What `method_missing` did with a call. */
  datatype Dispatch = Handled(result: Result<FindResult, FinderError>) | DeferredToSuper

  /**
   * The class-level state of one record type (a Ruby class such as `Post`).
   * The base table name, its singular form and the validations are given;
   * `translates` fills in the rest once.
   */
  class Model {
    const name: string
    const tableName: string
    const singularTableName: string
    const validations: seq<Validation>

    /** `InstanceMethods` is among the included modules. */
    var includesInstanceMethods: bool
    var translationTableName: string
    var quotedTranslationTableName: string
    var translatedAttributeNames: seq<string>
    /** `@required_attributes`, filled on first use. */
    var requiredMemo: Option<seq<string>>

    /** The memo, once filled, holds the required attributes of the declaration. */
    ghost predicate Valid()
      reads this
    {
      && (!includesInstanceMethods ==> requiredMemo == None)
      && (requiredMemo.Some? ==> requiredMemo.value == RequiredAttributes(validations, translatedAttributeNames))
    }

    constructor (name: string, tableName: string, singularTableName: string, validations: seq<Validation>)
      ensures Valid() && !IsTranslating()
      ensures this.name == name && this.tableName == tableName
      ensures this.singularTableName == singularTableName && this.validations == validations
    {
      this.name := name;
      this.tableName := tableName;
      this.singularTableName := singularTableName;
      this.validations := validations;
      includesInstanceMethods := false;
      translationTableName := "";
      quotedTranslationTableName := "";
      translatedAttributeNames := [];
      requiredMemo := None;
    }

    /** `translates?`: `InstanceMethods` is included; only a translating type has a filled memo. */
    predicate IsTranslating(): (r: bool)
      reads this
      ensures r <==> includesInstanceMethods
      ensures Valid() && !r ==> requiredMemo.None?
    {
      includesInstanceMethods
    }

    /** The record type as the finder sees it. */
    function Type(): RecordType
      reads this
    {
      RecordType(name, tableName, translationTableName, translatedAttributeNames)
    }

    /**
     * `translates(*attr_names, options)`: the first call records the
     * translated names and the translation table (`:table_name`, or the
     * default name) and includes `InstanceMethods`; once the type
     * translates, a further call changes nothing.
     */
    method Translates(attrNames: seq<string>, tableNameOption: Option<string>, quote: string -> string)
      requires Valid()
      modifies this
      ensures Valid() && IsTranslating()
      ensures old(IsTranslating()) ==> unchanged(this)
      ensures !old(IsTranslating()) ==>
        && translatedAttributeNames == attrNames
        && translationTableName == TranslationTableName(singularTableName, tableNameOption)
        && quotedTranslationTableName == quote(translationTableName)
        && requiredMemo == None
    {
      if includesInstanceMethods {
        return;
      }
      translationTableName := TranslationTableName(singularTableName, tableNameOption);
      quotedTranslationTableName := quote(translationTableName);
      translatedAttributeNames := attrNames;
      includesInstanceMethods := true;
    }

    /** `translated_attr_name(name)`: the translation table, a dot, the name. */
    function TranslatedAttrName(attribute: string): (r: string)
      reads this
      ensures |r| == |translationTableName| + 1 + |attribute|
      ensures r[..|translationTableName|] == translationTableName && r[|translationTableName|] == '.'
      ensures r[|translationTableName| + 1..] == attribute
    {
      QualifiedName(translationTableName, attribute)
    }

    /** `untranslated_attr_name(name)`: the base table, a dot, the name. */
    function UntranslatedAttrName(attribute: string): (r: string)
      reads this
      ensures |r| == |tableName| + 1 + |attribute|
      ensures r[..|tableName|] == tableName && r[|tableName|] == '.'
      ensures r[|tableName| + 1..] == attribute
    {
      QualifiedName(tableName, attribute)
    }

    /**
     * `required_attributes`: the translated presence-validated attributes,
     * computed on the first call and served from the memo afterwards.
     */
    method RequiredAttributesMemo() returns (r: seq<string>)
      requires Valid() && IsTranslating()
      modifies this`requiredMemo
      ensures Valid()
      ensures r == RequiredAttributes(validations, translatedAttributeNames)
      ensures requiredMemo == Some(r)
    {
      if requiredMemo.None? {
        requiredMemo := Some(RequiredAttributes(validations, translatedAttributeNames));
      }
      r := requiredMemo.value;
    }

    /** The `with_translations(locale)` named scope. */
    method WithTranslationsScope(locale: Locale) returns (s: Scope)
      requires Valid() && IsTranslating()
      modifies this`requiredMemo
      ensures Valid()
      ensures s == WithTranslations(quotedTranslationTableName, RequiredAttributes(validations, translatedAttributeNames), locale)
    {
      var required := RequiredAttributesMemo();
      s := WithTranslations(quotedTranslationTableName, required, locale);
    }

    /**
     * `find_by_dynamic_match(match, values)`: one equality predicate per
     * attribute name while values remain, each against the translation
     * table when the name is translated and the base table otherwise, then
     * the locale predicate bound to the fallback chain of the scoped
     * locale (or `i18nLocale`); the bang variant raises when `find`
     * yields nil.
     */
    method FindByDynamicMatch(m: DynamicMatch, values: seq<Value>, slot: SharedLocale, i18nLocale: Locale,
                              fallbacks: Locale -> seq<Locale>, toParam: Value -> Value,
                              find: FindOptions -> FindResult)
      returns (conditions: seq<string>, options: FindOptions, r: Result<FindResult, FinderError>)
      requires IsTranslating()
      ensures |conditions| == Min(|m.attributeNames|, |values|) + 1
      ensures forall i :: 0 <= i < |conditions| - 1 && m.attributeNames[i] in translatedAttributeNames ==>
        conditions[i] == translationTableName + "." + m.attributeNames[i] + " = ?"
      ensures forall i :: 0 <= i < |conditions| - 1 && m.attributeNames[i] !in translatedAttributeNames ==>
        conditions[i] == tableName + "." + m.attributeNames[i] + " = ?"
      ensures conditions[|conditions| - 1] == translationTableName + ".locale IN (?)"
      ensures options == FinderOptions(Type(), m, values, slot.current.GetOr(i18nLocale), fallbacks, toParam)
      ensures options.clause == Join(conditions, " AND ")
      ensures r == BangCheck(name, m, find(options))
    {
      var names := m.attributeNames;
      conditions := [];
      var i := 0;
      while i < |names|
        invariant i <= |names| && i <= |values|
        invariant |conditions| == i
        invariant forall j :: 0 <= j < i ==> conditions[j] == EqualityPredicate(Field(Type(), names[j]))
      {
        if i >= |values| {
          break;
        }
        var field;
        if names[i] in translatedAttributeNames {
          field := TranslatedAttrName(names[i]);
        } else {
          field := UntranslatedAttrName(names[i]);
        }
        conditions := conditions + [field + " = ?"];
        i := i + 1;
      }
      var params := Params(values, toParam);
      conditions := conditions + [TranslatedAttrName("locale") + " IN (?)"];
      var locale := slot.CurrentLocale().GetOr(i18nLocale);
      var binds := params + [Locales(LocaleNames(fallbacks(locale)))];
      assert conditions == FinderConditions(Type(), names, |values|);
      options := FindOptions(m.finder, false, "translations", Join(conditions, " AND "), binds);
      var found := find(options);
      if m.bang && found == NoRecord {
        r := Failure(RecordNotFound(NotFoundMessage(name, names)));
      } else {
        r := Success(found);
      }
    }

    /**
     * `method_missing(method, *args)`: a dynamic finder that names at least
     * one translated attribute is answered by the translated finder; any
     * other call goes to `super`.
     */
    method MethodMissing(parsed: Option<DynamicMatch>, args: seq<Value>, slot: SharedLocale, i18nLocale: Locale,
                         fallbacks: Locale -> seq<Locale>, toParam: Value -> Value,
                         find: FindOptions -> FindResult)
      returns (d: Dispatch)
      requires IsTranslating()
      ensures d.DeferredToSuper? <==> MethodMissingRoute(Type(), parsed).Super?
      ensures d.Handled? ==>
        d.result == BangCheck(name, parsed.value,
                              find(FinderOptions(Type(), parsed.value, args, slot.current.GetOr(i18nLocale), fallbacks, toParam)))
    {
      var route := MethodMissingRoute(Type(), parsed);
      if route.TranslatedFinder? {
        var _, _, r := FindByDynamicMatch(route.m, args, slot, i18nLocale, fallbacks, toParam, find);
        return Handled(r);
      }
      d := DeferredToSuper;
    }
  }

  /**
   * One record of a translating type: its raw `@attributes` hash, its
   * attribute adapter (the cache, whose workings are not part of this
   * model) and its translation rows.
   */
  class Record<A> {
    const model: Model
    var attributes: map<string, Value>
    var adapter: A
    var translations: seq<TranslationRow>

    constructor (model: Model, attributes: map<string, Value>, adapter: A, translations: seq<TranslationRow>)
      ensures this.model == model && this.attributes == attributes
      ensures this.adapter == adapter && this.translations == translations
    {
      this.model := model;
      this.attributes := attributes;
      this.adapter := adapter;
      this.translations := translations;
    }

    /** `attribute_names`: the translated names first, then the framework's own list. */
    function AttributeNames(frameworkNames: seq<string>): (r: seq<string>)
      reads model
      ensures |r| == |model.translatedAttributeNames| + |frameworkNames|
      ensures r[..|model.translatedAttributeNames|] == model.translatedAttributeNames
      ensures r[|model.translatedAttributeNames|..] == frameworkNames
      ensures forall a :: a in r <==> a in model.translatedAttributeNames || a in frameworkNames
    {
      model.translatedAttributeNames + frameworkNames
    }

    /**
     * `attributes`: a hash over `attribute_names`; a name present in
     * `@attributes` is read from there (through the column cast), any
     * other is fetched from the adapter for `I18n.locale`, a failed fetch
     * giving nil.
     */
    method Attributes(frameworkNames: seq<string>, i18nLocale: Locale,
                      cast: (string, Value) -> Value, fetch: (Locale, string) -> Option<Value>)
      returns (attrs: map<string, Value>)
      requires model.IsTranslating()
      ensures forall a :: a in attrs <==> a in AttributeNames(frameworkNames)
      ensures forall a :: a in attrs && a in attributes ==> attrs[a] == cast(a, attributes[a])
      ensures forall a :: a in attrs && a !in attributes ==> attrs[a] == fetch(i18nLocale, a).GetOr(Nil)
    {
      var names := AttributeNames(frameworkNames);
      attrs := map[];
      var i := 0;
      while i < |names|
        invariant i <= |names|
        invariant forall a :: a in attrs <==> a in names[..i]
        invariant forall a :: a in attrs && a in attributes ==> attrs[a] == cast(a, attributes[a])
        invariant forall a :: a in attrs && a !in attributes ==> attrs[a] == fetch(i18nLocale, a).GetOr(Nil)
      {
        var a := names[i];
        if a in attributes {
          attrs := attrs[a := cast(a, attributes[a])];
        } else {
          attrs := attrs[a := fetch(i18nLocale, a).GetOr(Nil)];
        }
        assert names[..i + 1] == names[..i] + [a];
        i := i + 1;
      }
      assert names[..i] == names;
    }

    /** `set_translations(options)`: find-or-build then update, locale by locale, in key order. */
    method SetTranslations(options: Translations.TranslationOptions)
      modifies this`translations
      ensures translations == Translations.SetTranslations(old(translations), options)
    {
      var i := 0;
      while i < |options|
        invariant i <= |options|
        invariant translations == Translations.SetTranslations(old(translations), options[..i])
      {
        var (locale, values) := options[i];
        match Translations.FindByLocale(translations, locale.name) {
          case Some(k) =>
            translations := translations[k := Translations.UpdateAttributes(translations[k], values)];
          case None =>
            var built := TranslationRow(locale.name, map[]);
            translations := translations + [Translations.UpdateAttributes(built, values)];
        }
        assert options[..i + 1][..i] == options[..i];
        i := i + 1;
      }
      assert options[..i] == options;
    }

    /**
     * `reload`: every translated name is deleted from `@attributes`, the
     * adapter is reset, and the framework's reload (`super`) runs on what
     * remains.
     */
    method Reload(reset: A -> A, frameworkReload: map<string, Value> -> map<string, Value>)
      modifies this`attributes, this`adapter
      ensures attributes == frameworkReload(old(attributes) - NameSet(model.translatedAttributeNames))
      ensures adapter == reset(old(adapter))
    {
      var names := model.translatedAttributeNames;
      var i := 0;
      while i < |names|
        invariant i <= |names|
        invariant attributes == old(attributes) - NameSet(names[..i])
        invariant adapter == old(adapter)
      {
        assert names[..i + 1] == names[..i] + [names[i]];
        attributes := attributes - {names[i]};
        i := i + 1;
      }
      assert names[..i] == names;
      adapter := reset(adapter);
      attributes := frameworkReload(attributes);
    }
  }

  /**
   * A caller's view of the shared slot: a scope that returns puts the
   * previous locale back; a scope whose block breaks out with a value, or
   * raises, leaves the block's locale in place.
   */
  method ScopedLocaleExample(slot: SharedLocale)
    modifies slot
  {
    slot.SetLocale(Some(Locale("en")));
    var seen := slot.WithLocale(Some(Locale("de")), (l: Option<Locale>) => Returned(l, l));
    assert seen == Success(Some(Locale("de")));
    assert slot.CurrentLocale() == Some(Locale("en"));
    var broke := slot.WithLocale(Some(Locale("it")), (l: Option<Locale>) => Broke(42, l));
    assert broke == Success(42);
    assert slot.CurrentLocale() == Some(Locale("it"));
    slot.SetLocale(Some(Locale("en")));
    var failed: Result<nat, string> := slot.WithLocale(Some(Locale("fr")), (l: Option<Locale>) => Raised("ActiveRecord::RecordInvalid", l));
    assert failed.Failure?;
    assert slot.CurrentLocale() == Some(Locale("fr"));
  }

  /**
   * A caller's view of a declaration: `User` translates `name` and
   * requires `name` and `email`; a second `translates` changes nothing.
   */
  method UserDeclarationExample(quote: string -> string)
  {
    var validations := [Validation(ValidatesPresenceOf, "name"), Validation(ValidatesPresenceOf, "email")];
    var user := new Model("User", "users", "user", validations);
    user.Translates(["name"], None, quote);
    assert user.translationTableName == "user_translations";
    user.Translates(["name", "email"], Some("people"), quote);
    assert user.translatedAttributeNames == ["name"];
    var required := user.RequiredAttributesMemo();
    UserRequiredAttributes();
    assert required == ["name"];
  }
}

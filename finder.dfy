/**
 * The translated dynamic finder (`find_by_name`, `find_all_by_title_and_id`,
 * `find_by_name!`) over a record type value: which calls it takes over from
 * the framework, the conditions and bind values it hands to `find`, and the
 * not-found error of the bang variant.
 */
module Finder {
  import opened Wrappers
  import opened Text
  import opened Declaration

  /**
   * What the finder needs to know about a translating record type: its class
   * name, its base table, its translation table and its translated
   * attribute names.
   */
  datatype RecordType = RecordType(
    name: string,
    tableName: string,
    translationTableName: string,
    translatedAttributeNames: seq<string>)

  /** `match.finder`: which `find` the dynamic finder calls. */
  datatype FinderKind = First | Last | All

  /** Whether the parsed method name is a finder or an instantiator (`find_or_create_by_...`). */
  datatype MatchKind = FinderMatch | InstantiatorMatch

  /** The framework's parse of a dynamic method name, taken as given. */
  datatype DynamicMatch = DynamicMatch(kind: MatchKind, finder: FinderKind, attributeNames: seq<string>, bang: bool)

  /** One bind value of the conditions array. */
  datatype Bind = Param(value: Value) | Locales(names: seq<string>)

  /** The options hash passed to `find`. */
  datatype FindOptions = FindOptions(finder: FinderKind, readonly: bool, joins: string, clause: string, binds: seq<Bind>)

  /** What `find` returns: nil, one record, or a (possibly empty) list of records. */
  datatype FindResult = NoRecord | OneRecord(id: nat) | Records(ids: seq<nat>)

  datatype FinderError = RecordNotFound(message: string)

  /** How `method_missing` disposes of a call. */
  datatype Route = TranslatedFinder(m: DynamicMatch) | Super

  function Min(a: nat, b: nat): nat
  {
    if a <= b then a else b
  }

  /** `"#{table}.#{name}"`, as `translated_attr_name` and `untranslated_attr_name` build it. */
  function QualifiedName(table: string, name: string): string
  {
    table + "." + name
  }

  /** `dynamic_finder(method)`: the parsed name, when it names a finder. */
  function DynamicFinder(parsed: Option<DynamicMatch>): (r: Option<DynamicMatch>)
    ensures r.Some? <==> parsed.Some? && parsed.value.kind == FinderMatch
    ensures r.Some? ==> r == parsed
  {
    match parsed
    case Some(m) => if m.kind == FinderMatch then parsed else None
    case None => None
  }

  /** `respond_to?`: every dynamic finder name is answered, whether or not it names a translated attribute. */
  function RespondsTo(parsed: Option<DynamicMatch>, superResponds: bool): (r: bool)
    ensures r <==> superResponds || (parsed.Some? && parsed.value.kind == FinderMatch)
  {
    DynamicFinder(parsed).Some? || superResponds
  }

  /** `match.attribute_names.any? { ... translated_attribute_names.include? ... }` */
  function HasTranslatedAttrs(names: seq<string>, translated: seq<string>): (r: bool)
    ensures r <==> exists i :: 0 <= i < |names| && names[i] in translated
  {
    if |names| == 0 then false
    else
      assert forall i :: 0 < i < |names| ==> names[i] == names[1..][i - 1];
      names[0] in translated || HasTranslatedAttrs(names[1..], translated)
  }

  /**
   * `method_missing`: a dynamic finder naming at least one translated
   * attribute goes to the translated finder; everything else to `super`.
   */
  function MethodMissingRoute(rt: RecordType, parsed: Option<DynamicMatch>): (r: Route)
    ensures r.TranslatedFinder? <==>
      parsed.Some? && parsed.value.kind == FinderMatch &&
      exists i :: 0 <= i < |parsed.value.attributeNames| && parsed.value.attributeNames[i] in rt.translatedAttributeNames
    ensures r.TranslatedFinder? ==> Some(r.m) == parsed
  {
    match DynamicFinder(parsed)
    case Some(m) =>
      if HasTranslatedAttrs(m.attributeNames, rt.translatedAttributeNames) then TranslatedFinder(m) else Super
    case None => Super
  }

  /** The column a finder attribute is compared against. */
  function Field(rt: RecordType, name: string): string
  {
    if name in rt.translatedAttributeNames
    then QualifiedName(rt.translationTableName, name)
    else QualifiedName(rt.tableName, name)
  }

  function EqualityPredicate(field: string): string
  {
    field + " = ?"
  }

  /** The final predicate: the translation row's locale is in the fallback chain. */
  function LocaleInPredicate(rt: RecordType): string
  {
    QualifiedName(rt.translationTableName, "locale") + " IN (?)"
  }

  /**
   * The equality predicates of `find_by_dynamic_match`: one per attribute
   * name, in order, while there are values left for them.
   */
  function EqualityPredicates(rt: RecordType, names: seq<string>, valueCount: nat): (r: seq<string>)
    ensures |r| == Min(|names|, valueCount)
    ensures forall i :: 0 <= i < |r| ==> r[i] == EqualityPredicate(Field(rt, names[i]))
  {
    if |names| == 0 || valueCount == 0 then []
    else [EqualityPredicate(Field(rt, names[0]))] + EqualityPredicates(rt, names[1..], valueCount - 1)
  }

  /** All predicates of the finder: the equality predicates, then the locale predicate. */
  function FinderConditions(rt: RecordType, names: seq<string>, valueCount: nat): seq<string>
  {
    EqualityPredicates(rt, names, valueCount) + [LocaleInPredicate(rt)]
  }

  /** `values.map!(&:to_param)`. */
  function Params(values: seq<Value>, toParam: Value -> Value): (r: seq<Bind>)
    ensures |r| == |values|
    ensures forall i :: 0 <= i < |r| ==> r[i] == Param(toParam(values[i]))
  {
    seq(|values|, i requires 0 <= i < |values| => Param(toParam(values[i])))
  }

  /** `fallbacks.map(&:to_s)`. */
  function LocaleNames(locales: seq<Locale>): (r: seq<string>)
    ensures |r| == |locales|
    ensures forall i :: 0 <= i < |r| ==> r[i] == locales[i].name
  {
    seq(|locales|, i requires 0 <= i < |locales| => locales[i].name)
  }

  /**
   * The options `find_by_dynamic_match` passes to `find`, for the scoped
   * locale `locale` (`locale || I18n.locale`): the predicates joined with
   * AND, then every value in its parameter form, then the fallback chain.
   */
  function FinderOptions(rt: RecordType, m: DynamicMatch, values: seq<Value>, locale: Locale,
                         fallbacks: Locale -> seq<Locale>, toParam: Value -> Value): FindOptions
  {
    FindOptions(m.finder, false, "translations",
                Join(FinderConditions(rt, m.attributeNames, |values|), " AND "),
                Params(values, toParam) + [Locales(LocaleNames(fallbacks(locale)))])
  }

  /**
   * The clause ends with the locale predicate and holds the equality
   * predicate of every attribute name that has a value; the binds are
   * all the values, none dropped, then the fallback chain's names.
   */
  lemma FinderOptionsShape(rt: RecordType, m: DynamicMatch, values: seq<Value>, locale: Locale,
                           fallbacks: Locale -> seq<Locale>, toParam: Value -> Value)
    ensures var o := FinderOptions(rt, m, values, locale, fallbacks, toParam);
      && o.finder == m.finder && !o.readonly && o.joins == "translations"
      && |o.clause| >= |LocaleInPredicate(rt)|
      && OccursAt(LocaleInPredicate(rt), o.clause, |o.clause| - |LocaleInPredicate(rt)|)
      && (forall i :: 0 <= i < Min(|m.attributeNames|, |values|) ==>
            Contains(o.clause, EqualityPredicate(Field(rt, m.attributeNames[i]))))
      && |o.binds| == |values| + 1
      && (forall i :: 0 <= i < |values| ==> o.binds[i] == Param(toParam(values[i])))
      && o.binds[|values|] == Locales(LocaleNames(fallbacks(locale)))
  {
    var conditions := FinderConditions(rt, m.attributeNames, |values|);
    var clause := Join(conditions, " AND ");
    JoinEndsWithLast(conditions, " AND ");
    forall i | 0 <= i < Min(|m.attributeNames|, |values|)
      ensures Contains(clause, EqualityPredicate(Field(rt, m.attributeNames[i])))
    {
      var at := JoinContainsPart(conditions, " AND ", i);
      assert OccursAt(EqualityPredicate(Field(rt, m.attributeNames[i])), clause, at);
    }
  }

  /**
   * In the clause handed to `find`, each attribute name that has a value
   * is compared in the translation table when it is translated and in the
   * base table otherwise.
   */
  lemma FinderClauseQualifies(rt: RecordType, m: DynamicMatch, values: seq<Value>, locale: Locale,
                              fallbacks: Locale -> seq<Locale>, toParam: Value -> Value)
    ensures var clause := FinderOptions(rt, m, values, locale, fallbacks, toParam).clause;
      forall i :: 0 <= i < Min(|m.attributeNames|, |values|) ==>
        && (m.attributeNames[i] in rt.translatedAttributeNames ==>
              Contains(clause, rt.translationTableName + "." + m.attributeNames[i] + " = ?"))
        && (m.attributeNames[i] !in rt.translatedAttributeNames ==>
              Contains(clause, rt.tableName + "." + m.attributeNames[i] + " = ?"))
  {
    FinderOptionsShape(rt, m, values, locale, fallbacks, toParam);
  }

  /** The message of the bang variant's RecordNotFound. */
  function NotFoundMessage(className: string, names: seq<string>): string
  {
    "Couldn't find " + className + " with provided values of " + Join(names, ", ")
  }

  /** The not-found message names the class and every attribute name of the finder. */
  lemma NotFoundMessageNames(className: string, names: seq<string>)
    ensures Contains(NotFoundMessage(className, names), className)
    ensures forall a :: a in names ==> Contains(NotFoundMessage(className, names), a)
  {
    var msg := NotFoundMessage(className, names);
    var head := "Couldn't find ";
    var tail := " with provided values of " + Join(names, ", ");
    assert msg == head + className + tail;
    ContainsInContext(head, className, tail, className, 0);
    forall a | a in names
      ensures Contains(msg, a)
    {
      var k :| 0 <= k < |names| && names[k] == a;
      var at := JoinContainsPart(names, ", ", k);
      var front := head + className + " with provided values of ";
      assert msg == front + Join(names, ", ") + "";
      ContainsInContext(front, Join(names, ", "), "", a, at);
    }
  }

  /**
   * `raise RecordNotFound if match.bang? && !result`: only the bang variant
   * with a nil result fails; every other result, a nil one of the plain
   * variant and an empty list included, is returned unchanged.
   */
  function BangCheck(className: string, m: DynamicMatch, found: FindResult): (r: Result<FindResult, FinderError>)
    ensures r.Failure? <==> m.bang && found == NoRecord
    ensures r.Success? ==> r.value == found
    ensures r.Failure? ==> r.error == RecordNotFound(NotFoundMessage(className, m.attributeNames))
  {
    if m.bang && found.NoRecord? then Failure(RecordNotFound(NotFoundMessage(className, m.attributeNames)))
    else Success(found)
  }
}

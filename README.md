# Globalize2 ActiveRecord glue, modelled in Dafny

This project models `lib/globalize/active_record.rb` of globalize2. That file is the
ActiveRecord layer that lets a record type declare some attributes as translated. Those
attributes are stored one row per locale in a translation table. The model covers:

- **Declaration** (`declaration.dfy`, module `Declaration`). `translates` names the translation
  table: the `:table_name` option if given, otherwise the singular base table name plus
  `_translations`. A translation row stores its locale as a string and reads it back as a
  symbol. `required_attributes` keeps the presence validations whose attribute is translated.
  The `with_translations` scope emits one `IS NOT NULL` predicate per required attribute,
  then a locale predicate.
- **Translated dynamic finder** (`finder.dfy`, module `Finder`). It covers the routing of
  `method_missing` and `respond_to?`. It covers the equality predicates of
  `find_by_dynamic_match`, each qualified by the translation table or the base table, plus
  the trailing `locale IN (?)` predicate. It covers the bind list (every value in parameter
  form, then the fallback chain's names) and the `RecordNotFound` of the bang variant.
- **set_translations** (`translations.dfy`, module `Translations`): a find-or-build-then-update
  of one translation row per locale key, as a fold over the options.
- **State** (`globalize.dfy`, module `Globalize`):
  - `SharedLocale` is the single `@@locale` slot that every record type shares, with
    `locale`, `locale=` and `with_locale`.
  - `Model` is one record type's class-level state: `translates`, `translates?`, the memoised
    `required_attributes`, the `with_translations` scope, `find_by_dynamic_match` as a loop
    with `break`, and `method_missing`.
  - `Record` is one instance: `attribute_names`, `attributes`, `set_translations` and `reload`.
- **Helpers** (`text.dfy`, `wrappers.dfy`): `Array#join` with its lemmas, and Option/Result.

Some parts come from code outside this file. They are parameters with no assumed contract:

- `find` executing the query;
- `Globalize.fallbacks`;
- `to_param`;
- the column cast of `read_attribute`;
- the adapter's `fetch` and `reset`;
- the framework's own `reload`;
- table-name quoting.

`ActiveRecord::DynamicFinderMatch.match` is not modelled either. Its parse of the method name
(finder or instantiator, `finder`, `attribute_names`, `bang?`) is an input.

Three behaviours of the source are easy to misread:

- `with_locale` restores the previous locale only when the block returns normally. Line 93
  is not in an `ensure`. When the block raises, throws, or returns from the method around
  it, the slot keeps what the block left. When the block leaves by `break value`,
  `with_locale` returns that value and the slot also keeps what the block left.
  `SharedLocale.WithLocale` states this.
- The finder stops emitting predicates when the values run out (line 139). Extra values
  are not dropped: every value goes into the bind list (lines 150 and 158).
- The default translation table name is the singular table name with `_translations`
  appended (line 17).

## Model

| member | source | states |
|---|---|---|
| `Declaration.LocaleRoundTrip` | lib/globalize/active_record.rb:26-27 | writing back the locale a translation row reads (string to symbol to string) leaves the row unchanged |
| `Declaration.TranslationTableNameRule` | lib/globalize/active_record.rb:17 | an explicit `:table_name` is used as given; otherwise the name is the singular table name followed by `_translations`, so distinct singular names never share a default translation table |
| `Declaration.RequiredAttributes` | lib/globalize/active_record.rb:105-109 | an attribute is required exactly when it is translated and has a presence validation; never more names than validations |
| `Declaration.RequiredAttributesAppend` | lib/globalize/active_record.rb:106-108 | the selection keeps validation order: it distributes over concatenation of the validation list |
| `Declaration.UserRequiredAttributes` | test/data/models.rb:59-62 | `User` (translates `name`, requires `name` and `email`) has required attributes `[name]` |
| `Declaration.PostRequiredAttributes` | test/data/models.rb:10-14 | `Post` (translates `subject`, `content`, requires `subject`) has required attributes `[subject]` |
| `Declaration.NotNullPredicates` | lib/globalize/active_record.rb:62-64 | one `<quoted table>.<attribute> IS NOT NULL` predicate per required attribute, in order |
| `Declaration.WithTranslationsGatesRequired` | lib/globalize/active_record.rb:61-66 | the scope's conditions hold the IS NOT NULL predicate of an attribute if and only if that attribute is required |
| `Declaration.WithTranslations` | lib/globalize/active_record.rb:61-67 | the scope includes the translations, binds the given locale, its clause ends with the locale predicate and contains every required attribute's IS NOT NULL predicate |
| `Finder.DynamicFinder` | lib/globalize/active_record.rb:131-134 | a parsed name is kept exactly when it is a finder (not an instantiator) |
| `Finder.RespondsTo` | lib/globalize/active_record.rb:111-113 | the type responds to every dynamic finder name, and to whatever `super` responds to |
| `Finder.HasTranslatedAttrs` | lib/globalize/active_record.rb:119-121 | true if and only if some matched attribute name is translated |
| `Finder.MethodMissingRoute` | lib/globalize/active_record.rb:115-127 | the translated finder takes the call if and only if it is a dynamic finder naming at least one translated attribute; otherwise `super` |
| `Finder.EqualityPredicates` | lib/globalize/active_record.rb:137-148 | exactly min(names, values) predicates, the i-th being `<field of name i> = ?`; names past the last value get none |
| `Finder.FinderClauseQualifies` | lib/globalize/active_record.rb:141-147 | in the clause passed to `find`, every attribute name with a value is compared as `<translation table>.<name> = ?` when translated and as `<base table>.<name> = ?` otherwise |
| `Finder.Params` | lib/globalize/active_record.rb:150 | every value is kept, in order, in its `to_param` form |
| `Finder.LocaleNames` | lib/globalize/active_record.rb:153 | the fallback chain's locales as strings, in order |
| `Finder.FinderOptionsShape` | lib/globalize/active_record.rb:150-158 | the find options use the match's finder, are not read-only and join the translations; the clause ends with the `locale IN (?)` predicate and contains each equality predicate; the binds are all values then the fallback names |
| `Finder.NotFoundMessageNames` | lib/globalize/active_record.rb:161 | the RecordNotFound message names the class and every attribute name |
| `Finder.BangCheck` | lib/globalize/active_record.rb:160-164 | fails with RecordNotFound if and only if the finder is the bang variant and `find` gave nil; otherwise returns the result unchanged |
| `Translations.FindByLocale` | lib/globalize/active_record.rb:237 | the index of the first row with that locale, or none exactly when no row has it |
| `Translations.UpsertEffect` | lib/globalize/active_record.rb:236-240 | after find-or-build and update, the locale's row holds the given values; a row is added only if the locale had none; rows keep their locales and rows of other locales are untouched |
| `Translations.UpsertColumns` | lib/globalize/active_record.rb:237-239 | only the found row changes; it keeps every column the hash does not name and gains no column outside the hash; a newly built row holds exactly the hash |
| `Translations.UpsertKeepsDistinct` | lib/globalize/active_record.rb:237-238 | find-or-build never creates a second row for a locale |
| `Translations.SetTranslationsFrame` | lib/globalize/active_record.rb:235-241 | `set_translations` keeps one row per locale, leaves rows of locales it was not given unchanged, and adds rows only for locales it was given |
| `Translations.SetTranslationsKeepsColumns` | lib/globalize/active_record.rb:235-241 | a column of an existing row keeps its value, and a NULL column stays NULL, unless a hash given for that row's locale names it |
| `Translations.SetTranslationsBuiltColumns` | lib/globalize/active_record.rb:237-239 | a row the call builds holds only columns that some hash given for its locale names |
| `Translations.SetTranslationsStores` | lib/globalize/active_record.rb:235-241 | with distinct locale keys, each given locale has a row holding the values given for it |
| `Globalize.SharedLocale.constructor` | lib/globalize/active_record.rb:35-37 | a slot never assigned reads as nil |
| `Globalize.SharedLocale.SetLocale` | lib/globalize/active_record.rb:39-41 | `locale=` sets the one shared slot |
| `Globalize.SharedLocale.WithLocale` | lib/globalize/active_record.rb:90-95 | the block runs with the locale set to the argument; a normal return or a `break value` gives its value, an escape (raise, `throw`, `return`) propagates; the previous locale is restored only after a normal return, otherwise the slot keeps the block's locale |
| `Globalize.Model.Translates` | lib/globalize/active_record.rb:43-53 | the first call records the translated names and the translation table and makes the type translate; once it translates, a further call changes nothing |
| `Globalize.Model.IsTranslating` | lib/globalize/active_record.rb:72-74 | `translates?` holds exactly when `InstanceMethods` is included; a type that does not translate has no memoised required attributes |
| `Globalize.Model.TranslatedAttrName` | lib/globalize/active_record.rb:184-186 | the result is the translation table name, then `.`, then the attribute name |
| `Globalize.Model.UntranslatedAttrName` | lib/globalize/active_record.rb:188-190 | the result is the base table name, then `.`, then the attribute name |
| `Globalize.Model.RequiredAttributesMemo` | lib/globalize/active_record.rb:105-109 | returns the required attributes of the declaration, memoised after the first call |
| `Globalize.Model.WithTranslationsScope` | lib/globalize/active_record.rb:61-67 | the scope is built from the required attributes and the quoted translation table name |
| `Globalize.Model.FindByDynamicMatch` | lib/globalize/active_record.rb:136-165 | builds min(names, values) equality predicates with table-qualified fields, then `<translation table>.locale IN (?)`; passes the joined clause, all params and the fallback chain of `locale` (or `I18n.locale`) to `find`; the bang variant raises on nil |
| `Globalize.Model.MethodMissing` | lib/globalize/active_record.rb:115-127 | defers to `super` exactly when the route is `super`; otherwise returns the translated finder's outcome |
| `Globalize.Record.AttributeNames` | lib/globalize/active_record.rb:217-219 | the translated names come first, followed by the framework's names in their own order, none lost |
| `Globalize.Record.Attributes` | lib/globalize/active_record.rb:198-207 | one entry per attribute name: a name in `@attributes` gives its cast column value, any other the adapter's fetch for `I18n.locale`, or nil when the fetch fails |
| `Globalize.Record.SetTranslations` | lib/globalize/active_record.rb:235-241 | the rows after the loop are the fold of find-or-build-then-update over the options, in key order |
| `Globalize.Record.Reload` | lib/globalize/active_record.rb:243-247 | every translated name is removed from `@attributes` and no other key is touched before the framework reload; the adapter is reset |

## Left out

- Query execution: `find` (with `:joins`, `:conditions`, `:readonly`), `has_many :translations`,
  `named_scope`, `after_save` and `class_inheritable_accessor` are ActiveRecord. The model takes
  `find` as a function from the options to a result. It models the scope's options, not its
  execution.
- `reflect_on_all_validations` is an input: a record type's validation list is fixed when the
  type is created. Validations added after `required_attributes` is memoised are therefore not
  modelled.
- `ActiveRecord::DynamicFinderMatch.match`: its parse of a method name is an input.
- Inflections and quoting: the singular table name is an input, and `quoted_table_name` is a
  parameter. `belongs_to` and `foreign_key` on the translation class are not modelled.
- Metaprogramming: `autoload`, `const_defined?`/`const_set` of the `Translation` class,
  `translated_attr_accessor` (the generated readers, writers and `_before_type_cast` alias),
  and class inheritance of a declaration (`Child < Parent`).
- `Adapter` and `Globalize.fallbacks` are not part of this model. `fetch`, `reset` and
  `fallbacks` are parameters. `globalize` (the lazily created adapter) is the record's
  `adapter` field. `save_translations!` only forwards to the adapter and is not modelled.
- The migration error classes (lines 2-4) are not modelled. The `Migration` module that raises
  them is not part of this model.
- Races between threads on the shared `@@locale` are not modelled. The model is
  single-threaded.
- `available_locales`, `translated_locales`, `by_locale` and `by_locales` are not modelled.
  They are thin database queries.
- `translated_attributes` is not modelled because it calls the generated readers.
- `attributes=` is not modelled. It deletes `:locale` from the caller's hash and, when that
  key was present and truthy, runs the framework's assignment inside `with_locale` with that
  locale; otherwise it runs the framework's assignment directly. The assignment itself is
  framework code.
- `Declaration.TranslationRow.ReadLocale`: the locale column is a string in this model, so a
  NULL locale column cannot be represented. On such a row `Translation#locale` (line 26)
  raises, because nil has no `to_sym`; the model does not capture that error.
- `translation_table_name` and `set_translation_table_name` are not modelled. They read and
  write the translation class's table name.
- `Globalize.Record.SetTranslations`: `find_by_locale` is modelled on the record's rows, which
  stand for the database. A failing `update_attributes!` (validation or database error) is not
  modelled. The attribute hash is kept apart from the locale column.
- `Globalize.Record.Reload`: the framework's `reload` (`super`) is a parameter, so the final
  `@attributes` is stated as that function applied to the pruned hash.

/**
 * The vuex module `i18nVuexModule`: the active locale and the registry of
 * translation tables, changed only by its two mutations. Each action only
 * forwards its payload to the mutation of the same name, so an action and
 * its mutation are one method here.
 */
module I18nStore {
  import opened Wrappers

  /** A flat translation table: key to template. */
  type Table = map<string, string>

  /** The registry of loaded locales: locale identifier to its table. */
  type Registry = map<string, Table>

  /** The registry after `locale` has been given `table`, replacing any table it had. */
  function WithTable(registry: Registry, locale: string, table: Table): (r: Registry)
    ensures locale in r && r[locale] == table
    ensures r.Keys == registry.Keys + {locale}
    ensures forall l :: l in registry && l != locale ==> r[l] == registry[l]
  {
    registry[locale := table]
  }

  /** Adding the same table twice leaves the registry as adding it once. */
  lemma WithTableIdempotent(registry: Registry, locale: string, table: Table)
    ensures WithTable(WithTable(registry, locale, table), locale, table) == WithTable(registry, locale, table)
  {
  }

  /** A second table for a locale replaces the first: no key of the first survives unless the second has it. */
  lemma WithTableReplaces(registry: Registry, locale: string, first: Table, second: Table)
    ensures WithTable(WithTable(registry, locale, first), locale, second) == WithTable(registry, locale, second)
    ensures forall key :: key in first && key !in second ==>
              key !in WithTable(WithTable(registry, locale, first), locale, second)[locale]
  {
  }

  class TranslationStore {
    /** The active locale; `None` until one is set (the source's `null`). */
    var locale: Option<string>
    /** The loaded translation tables. */
    var translations: Registry

    /** The module's initial state. */
    constructor ()
      ensures locale == None && translations == map[]
    {
      locale := None;
      translations := map[];
    }

    /** `SET_LOCALE`: overwrite the active locale, whether or not it has a table yet. */
    method SetLocale(l: string)
      modifies this
      ensures locale == Some(l)
      ensures translations == old(translations)
    {
      locale := Some(l);
    }

    /** `ADD_LOCALE`: store `table` as the whole table of `l`, without merging. */
    method AddLocale(l: string, table: Table)
      modifies this
      ensures translations == WithTable(old(translations), l, table)
      ensures locale == old(locale)
    {
      translations := translations[l := table];
    }
  }
}

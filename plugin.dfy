/**
 * `VuexI18nPlugin.install` and the operations it provides: translation of a
 * key under the active locale, reading and setting the locale, adding a
 * locale's table and asking whether a locale is loaded. When the store has
 * no module under the expected name, the plugin runs degraded: translation
 * returns the key, the locale reads as unset and setting it does nothing.
 */
module I18nPlugin {
  import opened Wrappers
  import opened Interpolation
  import opened I18nStore

  /** The module name used when `install` is given none. */
  const DefaultModuleName: string := "i18n"

  /** The third argument of `install`, or the default when it is absent. */
  function ModuleNameOrDefault(name: Option<string>): (r: string)
    ensures name.Some? ==> r == name.value
    ensures name.None? ==> r == DefaultModuleName
  {
    name.GetOr(DefaultModuleName)
  }

  /** The registry holds a template for `key` under the active locale. */
  predicate HasTemplate(locale: Option<string>, registry: Registry, key: string) {
    locale.Some? && locale.value in registry && key in registry[locale.value]
  }

  /** `$t(key, options)` over a snapshot of the module state. */
  function Resolve(locale: Option<string>, registry: Registry, key: string, options: Option<Replacements>): string {
    if locale.None? || locale.value !in registry then Render(key, options)
    else if key !in registry[locale.value] then Render(key, options)
    else Render(registry[locale.value][key], options)
  }

  /** A missing locale and a missing key fall back alike: the key is rendered as its own template. */
  lemma ResolveFallback(locale: Option<string>, registry: Registry, key: string, options: Option<Replacements>)
    requires !HasTemplate(locale, registry, key)
    ensures Resolve(locale, registry, key, options) == Render(key, options)
  {
  }

  /** With a template for `key`, the template is rendered. */
  lemma ResolveTemplate(locale: Option<string>, registry: Registry, key: string, options: Option<Replacements>)
    requires HasTemplate(locale, registry, key)
    ensures Resolve(locale, registry, key, options) == Render(registry[locale.value][key], options)
  {
  }

  /** Without replacements, a missing locale or key gives back the key itself. */
  lemma ResolveRawKey(locale: Option<string>, registry: Registry, key: string)
    requires !HasTemplate(locale, registry, key)
    ensures Resolve(locale, registry, key, None) == key
  {
    InterpolateEmpty(key);
  }

  /** `"greet"` under `"en"` with template `"Hello {name}"` and `name := value` gives `"Hello " + value`. */
  lemma ResolveGreeting(value: string)
    ensures Resolve(Some("en"), map["en" := map["greet" := "Hello {name}"]], "greet", Some(map["name" := value]))
         == "Hello " + value
  {
    assert "Hello {name}" == "Hello " + "{" + "name" + "}" + "";
    InterpolateAround("Hello ", "name", "", map["name" := value]);
    InterpolateNoBrace("Hello ", map["name" := value]);
  }

  class Plugin {
    /** The i18n module's state in the host store, or null when it is not registered. */
    const store: TranslationStore?
    /** The module name the plugin looks the state up under. */
    const moduleName: string

    /** The module was found at installation; otherwise the plugin runs degraded. */
    predicate Initialized() {
      store != null
    }

    /**
     * `install(Vue, store, moduleName)`: `modules` maps the names of the host
     * store's state modules to their state.
     */
    constructor Install(modules: map<string, TranslationStore>, name: Option<string>)
      ensures moduleName == ModuleNameOrDefault(name)
      ensures Initialized() <==> moduleName in modules
      ensures Initialized() ==> store == modules[moduleName]
    {
      moduleName := ModuleNameOrDefault(name);
      store := if ModuleNameOrDefault(name) in modules then modules[ModuleNameOrDefault(name)] else null;
    }

    /** `$t(key, options)`; degraded, the identity on the key, options ignored. */
    function Translate(key: string, options: Option<Replacements>): (r: string)
      reads this, store
      ensures !Initialized() ==> r == key
      ensures Initialized() ==> r == Resolve(store.locale, store.translations, key, options)
    {
      if store == null then key else Resolve(store.locale, store.translations, key, options)
    }

    /** `getLocale()`; degraded, always unset. */
    function GetLocale(): (r: Option<string>)
      reads this, store
      ensures !Initialized() ==> r == None
      ensures Initialized() ==> r == store.locale
    {
      if store == null then None else store.locale
    }

    /** `checkLocaleExists(locale)`: the registry has a table for `l`. Not provided when degraded. */
    function Exists(l: string): (r: bool)
      requires Initialized()
      reads this, store
      ensures r <==> l in store.translations
    {
      l in store.translations
    }

    /** `setLocale(locale)`; degraded, a no-op. */
    method SetLocale(l: string)
      modifies store
      ensures Initialized() ==> store.locale == Some(l) && store.translations == old(store.translations)
      ensures !Initialized() ==> GetLocale() == None
    {
      if store != null {
        store.SetLocale(l);
      }
    }

    /** `addLocale(locale, translations)`. Not provided when degraded. */
    method AddLocale(l: string, table: Table)
      requires Initialized()
      modifies store
      ensures store.translations == WithTable(old(store.translations), l, table)
      ensures store.locale == old(store.locale)
    {
      store.AddLocale(l, table);
    }
  }

  /** Register `"en"`, select it and translate `"greet"` with `name := value`, then a key the table lacks. */
  method GreetingScenario(value: string, absent: string) returns (greeting: string, missing: string)
    requires absent != "greet"
    ensures greeting == "Hello " + value
    ensures missing == absent
  {
    var state := new TranslationStore();
    var plugin := new Plugin.Install(map[DefaultModuleName := state], None);
    plugin.AddLocale("en", map["greet" := "Hello {name}"]);
    plugin.SetLocale("en");
    greeting := plugin.Translate("greet", Some(map["name" := value]));
    ResolveGreeting(value);
    missing := plugin.Translate(absent, None);
    ResolveRawKey(Some("en"), map["en" := map["greet" := "Hello {name}"]], absent);
  }

  /** Before any locale is set, a key translates to itself. */
  method NoLocaleScenario() returns (r: string)
    ensures r == "greet"
  {
    var state := new TranslationStore();
    var plugin := new Plugin.Install(map[DefaultModuleName := state], None);
    r := plugin.Translate("greet", None);
    ResolveRawKey(None, map[], "greet");
  }

  /** Installed under a name the store does not have: every operation degrades. */
  method DegradedScenario(key: string, options: Option<Replacements>, l: string)
    returns (translated: string, locale: Option<string>)
    ensures translated == key
    ensures locale == None
  {
    var plugin := new Plugin.Install(map[], Some("translations"));
    plugin.SetLocale(l);
    translated := plugin.Translate(key, options);
    locale := plugin.GetLocale();
  }
}

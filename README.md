# vuex-i18n in Dafny

A model of the two pieces of logic in the vuex-i18n bundle `dist/vuex-i18n.es.js`.

- **The translation store** is the vuex module `i18nVuexModule`. It holds the active locale and a registry that maps each locale to a flat key → template table. It changes only through `SET_LOCALE` and `ADD_LOCALE`. Each of these is reached through an action that forwards its payload unchanged.
- **The plugin** is `VuexI18nPlugin.install` and what it installs:
  - `$t` resolves a key under the active locale and renders the template.
  - `getLocale`, `setLocale`, `addLocale` and `checkLocaleExists` read or change the store.
  - A degraded mode is used when the store has no module under the expected name.
- **`render`** replaces each `{identifier}` placeholder with its replacement value. A placeholder with no replacement is kept verbatim.

Modules:

- `Wrappers` (`wrappers.dfy`): `Option`. It models the source's `null`/`undefined` for an unset locale, an omitted replacement mapping and a missing replacement.
- `Interpolation` (`interpolation.dfy`): `render`.
  - The regular expression `/\{\w+\}/g` is modelled by `Token`, the match at the head of the remaining text, and by the scan `Scan`. `Scan` cuts the text into pieces: single characters outside every match, and matches.
  - The replace callback is `Substitute`. It strips the braces with two first-occurrence removals (`ExtractId`), as the source does, and looks the identifier up (`Lookup`).
  - `Emit` puts the callback's result in place of each match and copies the other characters. `Interpolate` is `Emit` after `Scan`.
  - `Render` adds the default empty mapping. `Placeholders` lists the matched identifiers. The ghost `Warnings` lists the placeholders the source warns about.
- `I18nStore` (`store.dfy`): class `TranslationStore` with fields `locale: Option<string>` and `translations: map<string, map<string, string>>`.
  - Its methods `SetLocale` and `AddLocale` are the mutations, with each action folded into its mutation.
  - `WithTable` is the registry after an `ADD_LOCALE`.
- `I18nPlugin` (`plugin.dfy`):
  - `Resolve` is `$t` over a snapshot of the module state.
  - Class `Plugin` is what `install` sets up. `store` is the module's state, or null when the host store has no module of that name, which is degraded mode.
  - The host store's state is a parameter of the constructor `Install`: a map from module name to module state.

Where the code and its usual description differ, the model follows the code:

- In degraded mode the code installs three stubs: `$i18n` (returns the key), `$getLanguage` (returns `null`) and `$setLanguage` (only logs).
  - It installs no `$t`, no `add` and no `exists`.
  - `Plugin.Translate`, `Plugin.GetLocale` and `Plugin.SetLocale` take the stubs' behaviour when degraded.
  - `Plugin.AddLocale` and `Plugin.Exists` require an initialized plugin, because there is nothing to call otherwise.
- A natural expectation is that rendering with a replacement for every placeholder leaves no placeholder in the output. This does not hold. Braces around a placeholder survive the scan and close around its replacement: `"{{a}}"` with `a := "x"` renders as `"{x}"`. The code is single-pass by design, so this is recorded as a lemma about the model (`Interpolation.ResolvedOutputMayHoldPlaceholder`), not as a defect.

## Model

| member | source | states |
|---|---|---|
| `Interpolation.Token` | dist/vuex-i18n.es.js:145 | the match of `\{\w+\}` at the head of the text, if any; see `TokenSound` and `TokenComplete` |
| `Interpolation.RemoveFirst` | dist/vuex-i18n.es.js:147 | `replace` with a one-character string pattern; see `RemoveFirstCutsFirst` |
| `Interpolation.ExtractId` | dist/vuex-i18n.es.js:147 | the key taken from a placeholder by stripping the first `{` and then the first `}`; see `ExtractIdOfPlaceholder` |
| `Interpolation.Substitute` | dist/vuex-i18n.es.js:147-160 | the replace callback; see `SubstitutePlaceholder` |
| `Interpolation.Scan` | dist/vuex-i18n.es.js:145 | the left-to-right `/g` scan of the template into characters and matches; see `ScanText`, `TokenComplete`, `ScanAppend`, `ScanAround` |
| `Interpolation.Interpolate` | dist/vuex-i18n.es.js:145-161 | `translation.replace(/\{\w+\}/g, callback)`; see `ScanText`, `InterpolateAround`, `InterpolateUnmatched`, `SinglePass` |
| `Interpolation.Render` | dist/vuex-i18n.es.js:141-162 | `render`, with the empty mapping when replacements are omitted; see `InterpolateEmpty` |
| `Interpolation.Warnings` | dist/vuex-i18n.es.js:153-157 | the placeholders the console warning names, in order; see `WarningsIffUnresolved`, `WarningsAreUnresolved`, `WarningsAround` |
| `Interpolation.WordSpanMaximal` | dist/vuex-i18n.es.js:145 | the `\w+` run at a position is maximal: all word characters, followed by a non-word character or the end |
| `Interpolation.WordSpanExact` | dist/vuex-i18n.es.js:145 | a run of `m` word characters followed by a non-word character is a `\w+` run of exactly `m` characters |
| `Interpolation.TokenSound` | dist/vuex-i18n.es.js:145 | a match found at the head of the text is `{` + a non-empty identifier + `}` |
| `Interpolation.TokenComplete` | dist/vuex-i18n.es.js:145 | every prefix of the text that matches `\{\w+\}` is the match found at its head, so the scan misses nothing |
| `Interpolation.TokenAtPlaceholder` | dist/vuex-i18n.es.js:145 | a placeholder written at the head of the text is exactly the match found there |
| `Interpolation.TokenAppend` | dist/vuex-i18n.es.js:145 | text that starts with a character that can neither continue nor close a placeholder does not change the match at the head of what precedes it |
| `Interpolation.RemoveFirstCutsFirst` | dist/vuex-i18n.es.js:147 | `replace` with a one-character pattern leaves a string without that character alone, and otherwise cuts out exactly its first occurrence |
| `Interpolation.ExtractIdOfPlaceholder` | dist/vuex-i18n.es.js:147 | stripping the first `{` and then the first `}` from a placeholder gives exactly the identifier between them |
| `Interpolation.Lookup` | dist/vuex-i18n.es.js:149 | a replacement is defined exactly when the identifier is in the mapping, and then it is the mapped value |
| `Interpolation.SubstitutePlaceholder` | dist/vuex-i18n.es.js:147-160 | the callback returns the replacement when it is defined, and otherwise the placeholder itself |
| `Interpolation.ScanText` | dist/vuex-i18n.es.js:145 | joining the pieces of the scan gives back the text: matches and the characters between them partition it, in order |
| `Interpolation.ScanWellFormed` | dist/vuex-i18n.es.js:145 | every match the scan cuts out has a `\w+` identifier |
| `Interpolation.EmitUnmatched` | dist/vuex-i18n.es.js:147-160 | pieces none of whose matches has a replacement are emitted as the text they were cut from |
| `Interpolation.InterpolateUnmatched` | dist/vuex-i18n.es.js:145-161 | when no matched placeholder has a replacement, the rendered text equals the template |
| `Interpolation.InterpolateEmpty` | dist/vuex-i18n.es.js:142-161 | an empty or omitted mapping renders every template unchanged |
| `Interpolation.PlaceholdersEmptyIff` | dist/vuex-i18n.es.js:145 | the scan matches some placeholder if and only if the template has a `\{\w+\}` substring |
| `Interpolation.InterpolatePlain` | dist/vuex-i18n.es.js:145-161 | a template with no `\{\w+\}` substring renders to itself under any mapping |
| `Interpolation.InterpolateNoBrace` | dist/vuex-i18n.es.js:145 | text without `{` renders to itself |
| `Interpolation.ScanAppend` | dist/vuex-i18n.es.js:145 | the left-to-right scan of `a + b` is the scan of `a` followed by the scan of `b` when `b` starts with a character that cannot continue or close a placeholder |
| `Interpolation.EmitAppend` | dist/vuex-i18n.es.js:145-160 | each piece is replaced on its own: the output for two runs of pieces is the output for the first followed by the output for the second |
| `Interpolation.InterpolateAppend` | dist/vuex-i18n.es.js:145 | rendering `a + b` is rendering `a` followed by rendering `b` when `b` starts with a character that cannot continue or close a placeholder |
| `Interpolation.ScanAtPlaceholder` | dist/vuex-i18n.es.js:145 | a placeholder at the head of the text is cut out as one match and the scan resumes right after it |
| `Interpolation.ScanAround` | dist/vuex-i18n.es.js:145 | a placeholder anywhere in the text is cut out as one match, between the scans of the text on its two sides |
| `Interpolation.InterpolateAtPlaceholder` | dist/vuex-i18n.es.js:145-160 | a placeholder at the head of the text is matched whole and becomes its replacement, or stays verbatim when there is none |
| `Interpolation.InterpolateAround` | dist/vuex-i18n.es.js:145-160 | every placeholder, wherever it stands, becomes its defined replacement or stays verbatim, and the text on both sides keeps its order |
| `Interpolation.SinglePass` | dist/vuex-i18n.es.js:145-150 | a replacement value is copied into the output as it is and never rescanned, even when it has placeholders itself |
| `Interpolation.UnresolvedIff` | dist/vuex-i18n.es.js:149-157 | the callback takes its warning branch for some match if and only if some match has no replacement |
| `Interpolation.WarningsIffUnresolved` | dist/vuex-i18n.es.js:149-157 | a warning is emitted if and only if some matched placeholder has no replacement |
| `Interpolation.UnresolvedMissing` | dist/vuex-i18n.es.js:153-160 | each placeholder the callback warns about is a whole placeholder whose identifier has no replacement |
| `Interpolation.UnresolvedAppend` | dist/vuex-i18n.es.js:149-157 | the warnings for two runs of pieces are the warnings for the first followed by those for the second |
| `Interpolation.WarningsNoBrace` | dist/vuex-i18n.es.js:145-157 | text without `{` triggers no warning |
| `Interpolation.WarningsAround` | dist/vuex-i18n.es.js:145-157 | a placeholder anywhere is warned about, in its place between the warnings for the text on each side, exactly when it has no replacement |
| `Interpolation.CharAlone` | dist/vuex-i18n.es.js:145 | a single character, a lone brace included, matches nothing and is copied |
| `Interpolation.WarningsAreUnresolved` | dist/vuex-i18n.es.js:153-157 | every warned placeholder is a whole placeholder whose identifier has no replacement |
| `Interpolation.NestedPlaceholders` | dist/vuex-i18n.es.js:145 | in `{{id}}` the scan matches only the inner `{id}`; the outer braces are plain characters |
| `Interpolation.NestedInterpolate` | dist/vuex-i18n.es.js:145-160 | `{{id}}` renders as the replacement of `id` between the two outer braces |
| `Interpolation.ResolvedOutputMayHoldPlaceholder` | dist/vuex-i18n.es.js:145-160 | `{{id}}` with `id` mapped to an identifier `v` resolves its only placeholder and still renders as the placeholder `{v}` |
| `Interpolation.KnownThenUnknown` | dist/vuex-i18n.es.js:145-160 | a defined placeholder is substituted and a later undefined one is kept, with the brace-free text around both copied; the one warning names the undefined placeholder |
| `Interpolation.UnknownPlaceholderKept` | dist/vuex-i18n.es.js:145-160 | `"Hi {name}, {unknown}"` with only `name` defined substitutes `name`, keeps `{unknown}` verbatim and warns about `{unknown}` alone |
| `I18nStore.WithTable` | dist/vuex-i18n.es.js:21-23 | after an add, the locale's table is exactly the new one; the other locales and their tables are unchanged, and no locale is added besides it |
| `I18nStore.WithTableIdempotent` | dist/vuex-i18n.es.js:21-23 | adding the same table twice gives the registry that adding it once gives |
| `I18nStore.WithTableReplaces` | dist/vuex-i18n.es.js:21-23 | a second add for a locale replaces the first table with no merge: keys only in the first are gone |
| `I18nStore.TranslationStore.constructor` | dist/vuex-i18n.es.js:8-11 | the module starts with no locale and an empty registry |
| `I18nStore.TranslationStore.SetLocale` | dist/vuex-i18n.es.js:15-33 | the active locale becomes the given one, whether or not it has a table; the registry is unchanged |
| `I18nStore.TranslationStore.AddLocale` | dist/vuex-i18n.es.js:21-43 | the registry becomes `WithTable` of the old one; the active locale is unchanged |
| `I18nPlugin.ModuleNameOrDefault` | dist/vuex-i18n.es.js:57 | the module name is the third argument of `install` when it is given, and `"i18n"` otherwise |
| `I18nPlugin.HasTemplate` | dist/vuex-i18n.es.js:87-92 | the two `hasOwnProperty` tests: a locale is set, it has a table, and the table has the key |
| `I18nPlugin.Resolve` | dist/vuex-i18n.es.js:81-98 | `$t(key, options)` over a snapshot of the module state; see `ResolveFallback`, `ResolveTemplate`, `ResolveRawKey` |
| `I18nPlugin.ResolveFallback` | dist/vuex-i18n.es.js:84-94 | an unset locale, a locale with no table and a key missing from the table all give the key rendered as its own template |
| `I18nPlugin.ResolveTemplate` | dist/vuex-i18n.es.js:96-97 | when the active locale's table has the key, its template is rendered |
| `I18nPlugin.ResolveRawKey` | dist/vuex-i18n.es.js:86-94 | with no replacements, a missing locale or key gives back exactly the key |
| `I18nPlugin.ResolveGreeting` | dist/vuex-i18n.es.js:81-97 | under `"en"`, with `greet` mapped to `"Hello {name}"`, `$t("greet", {name: v})` is `"Hello " + v` |
| `I18nPlugin.Plugin.Install` | dist/vuex-i18n.es.js:56-61 | the plugin is initialized if and only if the host store has a module under the chosen name, and it then uses that module's state |
| `I18nPlugin.Plugin.Translate` | dist/vuex-i18n.es.js:64-98 | degraded, translation returns the key and ignores replacements; otherwise it is `Resolve` over the current locale and registry, as a read-only function |
| `I18nPlugin.Plugin.GetLocale` | dist/vuex-i18n.es.js:107-109 | the stored active locale; degraded, always unset |
| `I18nPlugin.Plugin.Exists` | dist/vuex-i18n.es.js:121-123 | true if and only if the registry has a table for the locale |
| `I18nPlugin.Plugin.SetLocale` | dist/vuex-i18n.es.js:100-105 | sets the store's locale and leaves the registry unchanged; degraded, it changes nothing and the locale still reads as unset |
| `I18nPlugin.Plugin.AddLocale` | dist/vuex-i18n.es.js:112-118 | replaces the locale's table in the store and leaves the active locale unchanged |
| `I18nPlugin.GreetingScenario` | dist/vuex-i18n.es.js:81-118 | adding `"en"`, setting it and translating `greet` with `name := v` gives `"Hello " + v`; a key the table lacks translates to itself |
| `I18nPlugin.NoLocaleScenario` | dist/vuex-i18n.es.js:84-89 | with no locale set, `greet` translates to `"greet"` |
| `I18nPlugin.DegradedScenario` | dist/vuex-i18n.es.js:61-77 | installed under a name the store lacks, setting a locale has no effect, the locale reads as unset and translation returns the key |

## Left out

- Attaching functions to `Vue.prototype` and the `Vue.i18n` namespace object (lines 65-75, 125-137) are host-framework wiring. The five operations are plain members of `Plugin` instead.
- Vuex `dispatch`/`commit` plumbing (lines 28-43, 101-117) is left out. Each action forwards its payload unchanged to one mutation, so each pair is one method.
- The Promise returned by `store.dispatch` in `addLocale` (line 113) is a value of the host library. `Plugin.AddLocale` returns nothing.
- Console output (lines 62, 74, 154-157) is not modelled as I/O. The ghost function `Warnings` records which placeholders the warning names, in order. The two `console.error` messages of a misconfigured install are not recorded.
- JavaScript object-key quirks are left out:
  - `hasOwnProperty(null)` looks up the key `"null"` when no locale is set (line 87).
  - Prototype-named keys are not modelled.
  - `replace` coerces non-string replacement values to strings (line 150).
  - Keys, templates and replacement values are strings here. An unset locale is `None` and never has a table.
- `render(key, null)` is left out. Line 142 falls back to `{}` only for `undefined`, so an explicit `null` reaches line 149, and the lookup throws a TypeError once the template has a `{\w+}` match. `Option<Replacements>` has no null mapping, so this error path is not modelled, and `Render` treats every omitted mapping as `{}`.
- Sharing of a table by reference is left out. `ADD_LOCALE` (line 22) stores the caller's table object itself, so later changes the caller makes to it show up in `$t`. Here a table is a value copied in at `AddLocale`: the store owns its tables, and only its mutations change them.
- The default export object (lines 167-172) only bundles the two parts.
- `Plugin.AddLocale`, `Plugin.Exists`: require an initialized plugin, because in degraded mode the source installs no `add` or `exists` to call.

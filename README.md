# Admin search dictionary of NodeBB, modelled in Dafny

NodeBB's admin panel has a search box that looks things up in a per-language dictionary of
admin pages. `src/admin/search.ts` builds that dictionary. It walks the admin view templates
and turns each file path into a namespace such as `admin/manage/users`, keeping only real
pages. For each namespace it then builds one record `{ namespace, translations, title? }`:

- When the translator has strings for the namespace, the record holds those strings joined
  by newlines and a translated menu title such as
  `[[admin/menu:section-manage]] > [[admin/menu:manage/users]]`.
- Otherwise the record is a fallback built from the template itself: sanitised, stripped of
  mustaches, whitespace-simplified, and followed by a title derived from the namespace
  (`Manage > Users`).

Fallback records are memoised per namespace and whole dictionaries per language. Both caches
are write-once and never evicted. The TypeScript module catches every error raised inside
its `try` blocks: a failure there gives an empty record, or no namespaces at all. The
`Translator.create` call that precedes the `try` in `buildNamespace` is taken not to throw
(see "Left out").

`src/admin/search.js` is the compiled JavaScript form. Its string functions are the same
expressions, so the model reuses the same members for them. Its error handling differs:

- `initFallback` and `getAdminNamespaces` catch nothing, so a failed fallback and a failed
  walk are not cached and are retried on the next call.
- A namespace the menu pattern does not match fails on `null[1]`, and `buildNamespace`'s
  catch turns that into an empty record.

Modules:

- `Wrappers`: `Option` and `Outcome`. `Failed` is a rejected promise or a thrown error.
- `Text`: the JavaScript string methods used, `endsWith`, `includes`, and `split`/`join`
  with a one-character separator. `IndexOf` stands for the string-pattern
  `replace('admin/', '')`, and `LastIndexOf` for the greedy `^.*` in front of the capture of
  `/^.*(admin.*?).tpl$/`. Also the line terminators that a regex `.` does not match.
- `Namespaces`: `filterDirectories`. The regex `/^.*(admin.*?).tpl$/` is modelled exactly,
  greedy prefix included: the capture starts at the last `admin` that ends before the
  four-character suffix.
- `Simplifier`: `simplify`, written as three left-to-right scans that do what the three
  global regex replacements do.
- `Titles`: `nsToTitle`; the menu regex `/admin\/(.+?)\/(.+?)$/` with its leftmost-match,
  lazy-group semantics; and the bracketed title template.
- `Records`: the record type, and the collaborators (`Env`) that the module calls but does
  not define. Also the record compositions shared by both forms.
- `Search`: the TypeScript module. Its two module-level caches are the fields of the class
  `AdminSearch`.
- `CompiledSearch`: the JavaScript module, as the class `CompiledAdminSearch`.

A consequence of the greedy `^.*` that the model makes explicit:
`<views>/admin/manage/admins-mods.tpl` yields the namespace `admins-mods`, because the last
`admin` is the one inside `admins`. The two-slash filter then drops it
(`Namespaces.AdminsModsPageDropped`). The model keeps this behaviour as written.

## Model

| member | source | states |
|---|---|---|
| Namespaces.StripTemplate | src/admin/search.ts:20 | a line-free path ending in any character plus `tpl`, with an `admin` before that suffix, is cut from the last such `admin` up to the final four characters; any other path is unchanged |
| Namespaces.LastAdminUnique | src/admin/search.ts:20 | the position the greedy prefix leaves to the capture group is unique |
| Namespaces.NormalizePath | src/admin/search.ts:20 | the stripped path has every `path.sep` replaced by `/`, and no separator other than `/` survives |
| Namespaces.NormalizeWithSlashSep | src/admin/search.ts:20 | where `path.sep` is `/`, `.split(path.sep).join('/')` leaves the stripped path unchanged |
| Namespaces.KeepPages | src/admin/search.ts:21-31 | the filter keeps no more entries than it is given, and every kept entry passes all four page tests |
| Namespaces.FilterDirectories | src/admin/search.ts:16-33 | never longer than the input; every entry is a page (not `.js`, no `/partials/`, two slashes with a line-free gap, not one of the three excluded `manage/` pages) |
| Namespaces.NormalizeAll | src/admin/search.ts:17-20 | the map step keeps the length, and entry k is the normalised path k |
| Namespaces.IsPage | src/admin/search.ts:26-31 | a page has at least two slashes, does not end in `.js` and is not one of the three excluded `manage/` pages |
| Namespaces.KeepPagesCounts | src/admin/search.ts:21-31 | the filter keeps every copy of a page and no copy of anything else: a page occurs in the output as often as in the input |
| Namespaces.KeepPagesIsSubsequence | src/admin/search.ts:21-31 | the filter keeps entries in their original order |
| Namespaces.KeepPagesMembers | src/admin/search.ts:26-31 | an entry is kept if and only if it is an input entry that passes the page tests |
| Namespaces.FilterDirectoriesSpec | src/admin/search.js:23-28 | the output is an order-preserving subsequence of the mapped paths; a string is in it if and only if it is a page and the normalised form of some input path; each page occurs in it exactly as often as among the mapped paths |
| Namespaces.TwoSlashesCount | src/admin/search.ts:29 | `/\/.*\//` holds only when the entry has at least two slashes, and holds whenever a line-free entry has two |
| Namespaces.AdminsModsPageDropped | src/admin/search.ts:20-31 | `admin/manage/admins-mods.tpl` under any line-free views root becomes `admins-mods` and is filtered out |
| Namespaces.AdminsModsLastAdmin | src/admin/search.ts:20 | in that path the capture starts at the `admin` inside `admins-mods` |
| Simplifier.StripMustaches | src/admin/search.ts:72 | removing the mustaches never lengthens the text, adds no character, and leaves no `{` before a `}` |
| Simplifier.StripMustachesKeeps | src/admin/search.ts:72 | text with no `{` before a `}` has nothing removed |
| Simplifier.CollapseNewlines | src/admin/search.ts:74 | collapsing newline runs never lengthens the text and adds no character but `\n` |
| Simplifier.CollapseNewlinesCollapsed | src/admin/search.ts:74 | after the collapse no `\r` is left, and no space or tab stands next to a `\n` |
| Simplifier.SqueezeBlanks | src/admin/search.ts:75 | squeezing blank runs never lengthens the text and adds no character but a space |
| Simplifier.SqueezeBlanksSimplified | src/admin/search.js:45-50 | squeezing collapsed text leaves no tab, no `\r`, no double space, no double newline and no space beside a newline |
| Simplifier.CollapseKeepsNoMustache | src/admin/search.ts:72-74 | the whitespace collapse brings no mustache back |
| Simplifier.SqueezeKeepsNoMustache | src/admin/search.ts:74-75 | the blank squeeze brings no mustache back |
| Simplifier.Simplify | src/admin/search.ts:69-76 | the result has no tab, no `\r`, no double space, no double newline, no space beside a newline and no `{` before a `}`, and is never longer than the input |
| Simplifier.CollapseNewlinesKeeps | src/admin/search.ts:74 | simplified text is left alone by the newline collapse |
| Simplifier.SqueezeBlanksKeeps | src/admin/search.ts:75 | simplified text is left alone by the blank squeeze |
| Simplifier.SimplifyIdempotent | src/admin/search.ts:69-76 | simplifying twice is simplifying once |
| Titles.BlankOut | src/admin/search.ts:80 | the length is kept; every character outside `[a-zA-Z> ]` becomes a space, and every other character stays |
| Titles.RemoveFirst | src/admin/search.ts:79 | only the first occurrence of the pattern is removed; text without one is unchanged |
| Titles.Capitalize | src/admin/search.ts:79 | `str[0].toUpperCase() + str.slice(1)` throws exactly on an empty segment; otherwise the length is kept, the first character is upper-cased and the rest is unchanged |
| Titles.CapitalizeAll | src/admin/search.ts:79 | capitalising the segments succeeds if and only if none is empty (`str[0]` of an empty segment throws) |
| Titles.NsToTitle | src/admin/search.ts:78-81 | a title contains only ASCII letters, spaces and `>` |
| Titles.SplitEmptyPiece | src/admin/search.ts:79 | the split has no empty segment if and only if the text is non-empty and neither starts nor ends with the separator nor has two in a row |
| Titles.NsToTitleFails | src/admin/search.js:52-55 | `nsToTitle` throws exactly when the namespace without its first `admin/` has an empty `/`-segment |
| Titles.CapitalizeAllIsCapFirst | src/admin/search.ts:79 | a successful capitalisation upper-cases the first character of each segment and keeps the rest |
| Titles.SplitUpperHeads | src/admin/search.ts:79 | upper-casing each segment's head character by character and then splitting gives the split segments with their heads upper-cased |
| Titles.NsToTitleShape | src/admin/search.ts:78-81 | a title is the namespace without its first `admin/`, each segment's first letter upper-cased, each `/` turned into ` > `, and the disallowed characters blanked |
| Titles.MenuMatchAt | src/admin/search.ts:141 | a match at a position is `admin/`, a non-empty line-free first group up to the first slash that leaves a non-empty second group, and a line-free second group up to the end; no match means one of these is impossible there |
| Titles.MenuMatchFrom | src/admin/search.ts:141 | the search gives the match at the leftmost matching position at or after the start, or no position matches |
| Titles.MenuMatch | src/admin/search.ts:141 | on a match, it is the match at the leftmost matching position; both groups are non-empty and line-free, group 1 has no slash after its first character, and the namespace ends with `admin/` + group 1 + `/` + group 2; with no match, no `admin/` followed by a line-free rest has a slash after its first character that is not the last |
| Titles.SectionKey | src/admin/search.ts:142-143 | the section key is never `development`, and it is the first group itself exactly when that group is not `development` |
| Titles.MenuTitleTemplate | src/admin/search.ts:142-145 | the template starts with the section entry; with an empty second group it is only that entry; otherwise it ends with the page entry `[[admin/menu:X/Y]]` with the original first group |
| Titles.TitleTemplate | src/admin/search.ts:140-145 | the template is empty exactly when the menu pattern does not match, and otherwise starts with the section entry of the first group |
| Titles.MenuTemplateText | src/admin/search.ts:142-145 | with a non-empty second group, the template is the section entry, ` > ` and the page entry |
| Titles.NestedAdminMatchesFirst | src/admin/search.ts:141 | in `admin/a/admin/b/c` the leftmost match wins: the groups are `a` and `admin/b/c` |
| Titles.TitleTemplateOfPage | src/admin/search.ts:140-145 | for `admin/X/Y` with X non-empty and slash-free and Y non-empty, the groups are X and Y, and the template is `[[admin/menu:section-X']] > [[admin/menu:X/Y]]` with X' = `advanced` for `development` |
| Titles.PageMatchesAtStart | src/admin/search.ts:141 | such a namespace matches at its first character, with groups X and Y |
| Titles.TitleTemplateNoMatch | src/admin/search.ts:141-145 | when no `admin/` followed by a line-free rest has a slash after its first character that is not the last (as for `admin/dashboard`, `admin/x/` or a namespace without `admin/`), the pattern does not match and the template is empty |
| Titles.MatchSlash | src/admin/search.ts:141 | a match at a position has `admin/` there, a line-free rest, and a slash after the first character of group 1 that is not the last character |
| Records.TemplateText | src/admin/search.ts:96-98 | the template's searchable text is simplified and free of mustaches |
| Records.FallbackFromTemplate | src/admin/search.ts:95-105 | the fallback built from a read template fails exactly when `nsToTitle` throws; otherwise it is a titled fallback record whose text is the template text, `\n` and the title |
| Records.InitFallbackOutcome | src/admin/search.js:57-71 | the uncaught `initFallback` rejects exactly when the views directory is not a string, the template cannot be read, or `nsToTitle` throws; otherwise it is the record built from the template |
| Records.Values | src/admin/search.ts:137 | the values of the translation map, one per key, in key order |
| Records.TranslatedRecord | src/admin/search.ts:137-152 | the record is well formed; it has a title exactly when the title translation resolves, and then its text is the sanitised newline-join of the values, `\n` and that title |
| Search.GetAdminNamespaces | src/admin/search.ts:35-52 | every namespace is a page; with no string views directory, or a failed walk, there are none; otherwise there are no more namespaces than walked files, and a string is a namespace exactly when it is a page and the normalised form of a walked file |
| Search.FallbackRecord | src/admin/search.ts:85-117 | the caught `initFallback` gives a fallback record of its namespace; it has no title exactly when the uncaught body fails |
| Search.InitFallback | src/admin/search.ts:85-117 | the step-by-step `initFallback` resolves to that fallback record |
| Search.BuildStep | src/admin/search.ts:129-164 | a rejected translation lookup gives the empty record; the fallback is used exactly when the map is missing or empty; otherwise the record is the translated record titled by the menu template; every built record is well formed |
| Search.DeliveredExtend | src/admin/search.ts:166-168 | appending the record delivered for the next namespace keeps every earlier record delivered after the fallback cache has grown |
| Search.DeliveredStable | src/admin/search.ts:119-127 | a record delivered from the fallback cache stays delivered while the cache only gains entries |
| Search.AdminSearch.constructor | src/admin/search.ts:83 | both caches start empty |
| Search.AdminSearch.Fallback | src/admin/search.ts:119-127 | a cached namespace gets its stored record and nothing changes; otherwise the fallback record is computed and stored under that namespace only, failures included |
| Search.AdminSearch.BuildNamespace | src/admin/search.ts:129-164 | the record is well formed and named after its namespace; it is the built record or the fallback-cache entry; the cache changes only by the fallback of this namespace |
| Search.AdminSearch.InitDict | src/admin/search.ts:166-169 | one record per admin namespace, in namespace order, each what `buildNamespace` delivers; the fallback cache keeps its entries and only gains fallback records of those namespaces |
| Search.AdminSearch.GetDictionary | src/admin/search.ts:171-181 | a cached language gets its stored dictionary and nothing changes; otherwise the dictionary is built and stored under that language only |
| Search.FallbackIsBuiltOnce | src/admin/search.ts:119-127 | a second fallback call returns the first result whatever the world is then, so a failed fallback stays the empty record |
| Search.DictionaryIsBuiltOnce | src/admin/search.ts:171-181 | a second dictionary call returns the first dictionary, which holds one record per admin namespace in order |
| Search.UnlistableViewsGiveEmptyDictionary | src/admin/search.ts:35-52 | when the views cannot be listed the dictionary is empty, and stays empty for that language |
| Search.TranslatedPageTitle | src/admin/search.ts:140-152 | a translated `admin/X/Y` page is titled by the translation of its menu template |
| CompiledSearch.GetAdminNamespaces | src/admin/search.js:30-35 | rejects exactly when the views directory is not a string or the walk fails; otherwise gives the same pages as the TypeScript module |
| CompiledSearch.InitFallback | src/admin/search.js:57-71 | the step-by-step uncaught `initFallback` settles as the record builder says |
| CompiledSearch.BuildStep | src/admin/search.js:88-116 | a rejected translation lookup gives the empty record; the fallback is used exactly when the map is missing or empty; otherwise a namespace the menu pattern does not match gets the empty record (the caught `null[1]`), and a matched one the translated record titled by the menu template of its two groups; every built record is well formed |
| CompiledSearch.BuildStepAgreement | src/admin/search.js:99-100 | where the menu pattern matches, the compiled decision is the TypeScript one; where it does not, every namespace the TypeScript module builds a record for (titled by translating "" there) gets the empty record, and the fallback is used exactly where the TypeScript module uses it |
| CompiledSearch.DeliveredExtend | src/admin/search.js:82-86 | appending the record delivered for the next namespace keeps every earlier record delivered after the cache has gained resolved fallbacks |
| CompiledSearch.GrowsByOne | src/admin/search.js:72-81 | caching the resolved fallback of one more listed namespace keeps the cache growing as the dictionary build allows |
| CompiledSearch.StepKeeps | src/admin/search.js:72-81 | one `buildNamespace` step keeps every cached fallback and adds only resolved ones |
| CompiledSearch.DeliveredStable | src/admin/search.js:72-81 | a delivered record stays delivered while the cache only gains resolved fallbacks |
| CompiledSearch.GrowsStep | src/admin/search.js:82-87 | one `buildNamespace` step keeps the cache growing only by resolved fallbacks of listed namespaces |
| CompiledSearch.CompiledAdminSearch.constructor | src/admin/search.js:56 | both caches start empty |
| CompiledSearch.CompiledAdminSearch.Fallback | src/admin/search.js:72-81 | a cached namespace gets its stored record; otherwise `initFallback` settles, and only a resolved record is stored, under that namespace only |
| CompiledSearch.CompiledAdminSearch.BuildNamespace | src/admin/search.js:88-116 | the record is well formed; a rejected fallback or a failed match gives the empty record; the cache changes only by a resolved fallback of this namespace |
| CompiledSearch.CompiledAdminSearch.InitDict | src/admin/search.js:82-87 | rejects exactly when the namespaces cannot be listed, leaving the cache alone; otherwise one record per namespace, in order |
| CompiledSearch.CompiledAdminSearch.GetDictionary | src/admin/search.js:117-127 | a cached language gets its stored dictionary; otherwise it rejects exactly when the listing fails, without caching, or the dictionary is stored under that language only |
| CompiledSearch.FailedFallbackIsRetried | src/admin/search.js:72-81 | after a rejected fallback, the next call runs `initFallback` again |
| CompiledSearch.ResolvedFallbackIsKept | src/admin/search.js:72-81 | a resolved fallback is returned again on the next call |
| CompiledSearch.FailedDictionaryIsRetried | src/admin/search.js:117-127 | after a failed listing, the next `getDictionary` lists the views again and gives one record per namespace |

## Left out

- The HTML sanitiser, the translator (`getTranslation`, `translate`, `removePatterns`),
  reading a template, walking the views, and `nconf.get('views_dir')` are not defined here.
  They are fields of `Records.Env`, each given as the value the real call settles to.
  `path.resolve` is folded into the read and walk results.
- `sanitize`'s check that the sanitiser returned a string (src/admin/search.ts:62-64): the
  sanitiser is modelled as a total `string -> string`, so that branch cannot arise.
- Logging through `console.error` and `winston`: side effects only.
- `Promise.all` runs the `buildNamespace` calls concurrently. They are modelled one after
  the other, which keeps the result order. Races on first access to a cache key are not
  modelled.
- The compiler helpers `__awaiter` and `__importDefault` of the JavaScript module.
- `Titles.ToUpper`: only ASCII letters are upper-cased. Unicode case mapping of
  `toUpperCase` is not modelled. The later blanking keeps only ASCII letters, `>` and
  spaces, but some non-ASCII characters upper-case to ASCII (`ß` to `SS`, `ı` to `I`, `ſ` to
  `S`) and would survive it; for such a segment head the model's title differs, and with `ß`
  even in length.
- Strings are sequences of Unicode scalar values, where JavaScript counts UTF-16 code
  units. A character outside the Basic Multilingual Plane is one element here and two units
  there, so `str[0]`, the per-unit blanking (which gives two spaces for it) and the one
  character `.` before `tpl` differ from the source on such characters.
- `Translator.create` (src/admin/search.ts:130, src/admin/search.js:90) runs before the
  `try` of `buildNamespace` and is taken not to throw. If it threw, `buildNamespace`,
  `initDict` and `getDictionary` would reject and the language would stay uncached; the model
  has no such path.
- CompiledSearch.CompiledAdminSearch.BuildNamespace: the JavaScript catch logs `err.stack`
  (src/admin/search.js:109), which itself throws when the rejection reason is `null` or
  `undefined`. Rejection reasons are taken to be objects, so the catch always returns the
  empty record; "the dictionary rejects exactly when the listing fails" holds under that
  assumption.
- `path.sep` is a parameter of the walk environment, not a platform constant.
- The caches are plain objects in the source. A key such as `constructor` would hit the
  prototype chain there; the model uses maps, where every key starts absent.
- Search.GetAdminNamespaces and CompiledSearch.GetAdminNamespaces: the walk is given the
  views directory and stands for walking its `admin` sub-directory.

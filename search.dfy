/**
 * The TypeScript admin search module: the per-language dictionary of admin pages
 * that the admin panel's search box looks in. Every step that can fail is caught:
 * a missing views directory or a failed walk gives no namespaces, a failed
 * fallback or translation gives an empty record. The module-level caches
 * `fallbackCache` and `cache` are the fields of an `AdminSearch` object.
 */
module Search {
  import opened Wrappers
  import opened Text
  import Namespaces
  import Simplifier
  import Titles
  import opened Records

  /** `getAdminNamespaces()`: the pages below the admin views, or none when the views
      directory is not a string or cannot be walked. */
  function GetAdminNamespaces(env: Env): (r: seq<string>)
    ensures forall k | 0 <= k < |r| :: Namespaces.IsPage(r[k])
    ensures env.viewsDir.None? || env.walk(env.viewsDir.value).Failed? ==> r == []
    ensures env.viewsDir.Some? && env.walk(env.viewsDir.value).Ok? ==>
              var dirs := env.walk(env.viewsDir.value).value;
              && |r| <= |dirs|
              && forall d :: d in r <==>
                   Namespaces.IsPage(d) && exists k | 0 <= k < |dirs| :: d == Namespaces.NormalizePath(dirs[k], env.sep)
  {
    if env.viewsDir.None? then []
    else match env.walk(env.viewsDir.value)
      case Failed => []
      case Ok(dirs) =>
        assert forall d :: d in Namespaces.FilterDirectories(dirs, env.sep) <==>
                 Namespaces.IsPage(d) && exists k | 0 <= k < |dirs| :: d == Namespaces.NormalizePath(dirs[k], env.sep) by {
          forall d
            ensures d in Namespaces.FilterDirectories(dirs, env.sep) <==>
                      Namespaces.IsPage(d) && exists k | 0 <= k < |dirs| :: d == Namespaces.NormalizePath(dirs[k], env.sep)
          {
            Namespaces.FilterDirectoriesSpec(dirs, env.sep, d);
          }
        }
        Namespaces.FilterDirectories(dirs, env.sep)
  }

  /** What `initFallback(ns)` resolves to: the record built from the template, or the empty
      record when any step throws. */
  function FallbackRecord(env: Env, ns: string): (r: NamespaceInfo)
    ensures IsFallbackFor(ns, r)
    ensures r.title.None? <==> InitFallbackOutcome(env, ns).Failed?
    ensures r.title.Some? ==> Ok(r) == InitFallbackOutcome(env, ns)
  {
    match InitFallbackOutcome(env, ns)
    case Ok(info) => info
    case Failed => EmptyRecord(ns)
  }

  /** `initFallback(namespace)`, step by step. */
  method InitFallback(env: Env, ns: string) returns (r: NamespaceInfo)
    ensures r == FallbackRecord(env, ns)
  {
    if env.viewsDir.None? {
      return EmptyRecord(ns);
    }
    var template := env.readFile(env.viewsDir.value, ns + ".tpl");
    if template.Failed? {
      return EmptyRecord(ns);
    }
    var title := Titles.NsToTitle(ns);
    if title.Failed? {
      return EmptyRecord(ns);
    }
    var translations := env.sanitizeHtml(template.value);
    translations := env.removePatterns(translations);
    translations := Simplifier.Simplify(translations);
    translations := translations + "\n" + title.value;
    r := NamespaceInfo(ns, translations, Some(title.value));
  }

  /** What `buildNamespace(language, ns)` decides before consulting the fallback: the empty
      record when the translator rejects, the fallback when it has no or an empty map, and
      otherwise the translated record titled by the menu template. */
  function BuildStep(env: Env, language: string, ns: string): (s: Step)
    ensures s.Built? ==> s.info.namespace == ns && WellFormed(s.info)
    ensures env.getTranslation(language, ns).Failed? ==> s == Built(EmptyRecord(ns))
    ensures env.getTranslation(language, ns).Ok? && env.getTranslation(language, ns).value.Some?
            && env.getTranslation(language, ns).value.value != [] ==>
              s == Built(TranslatedRecord(env, language, ns, env.getTranslation(language, ns).value.value,
                                          Titles.TitleTemplate(ns)))
    ensures s.UseFallback? <==>
              env.getTranslation(language, ns).Ok?
              && (env.getTranslation(language, ns).value.None? || env.getTranslation(language, ns).value.value == [])
  {
    match env.getTranslation(language, ns)
    case Failed => Built(EmptyRecord(ns))
    case Ok(None) => UseFallback
    case Ok(Some(entries)) =>
      if |entries| == 0 then UseFallback
      else Built(TranslatedRecord(env, language, ns, entries, Titles.TitleTemplate(ns)))
  }

  /** `r` is what `buildNamespace(language, ns)` resolves to once the fallback cache is `fc`. */
  ghost predicate Delivered(env: Env, language: string, ns: string, fc: map<string, NamespaceInfo>,
                            r: NamespaceInfo) {
    match BuildStep(env, language, ns)
    case Built(info) => r == info
    case UseFallback => ns in fc && r == fc[ns]
  }

  /** `fc` keeps every entry of `fc0`; each entry it adds is the fallback record of a namespace
      of `nss` that the translator had nothing for. */
  ghost predicate CacheGrows(env: Env, language: string, nss: seq<string>,
                             fc0: map<string, NamespaceInfo>, fc: map<string, NamespaceInfo>) {
    && (forall ns | ns in fc0 :: ns in fc && fc[ns] == fc0[ns])
    && (forall ns | ns in fc && ns !in fc0 ::
          ns in nss && BuildStep(env, language, ns).UseFallback? && fc[ns] == FallbackRecord(env, ns))
  }

  /** What a namespace was delivered stays delivered while the cache keeps its entries. */
  lemma DeliveredStable(env: Env, language: string, ns: string, fc0: map<string, NamespaceInfo>,
                        fc: map<string, NamespaceInfo>, r: NamespaceInfo)
    requires Delivered(env, language, ns, fc0, r)
    requires forall n | n in fc0 :: n in fc && fc[n] == fc0[n]
    ensures Delivered(env, language, ns, fc, r)
  {
  }

  /** One `buildNamespace` step keeps the cache growing as `CacheGrows` says. */
  lemma GrowsStep(env: Env, language: string, nss: seq<string>, i: nat,
                  fc0: map<string, NamespaceInfo>, before: map<string, NamespaceInfo>,
                  fc: map<string, NamespaceInfo>)
    requires i < |nss|
    requires CacheGrows(env, language, nss, fc0, before)
    requires BuildStep(env, language, nss[i]).Built? ==> fc == before
    requires BuildStep(env, language, nss[i]).UseFallback? ==>
               fc == if nss[i] in before then before else before[nss[i] := FallbackRecord(env, nss[i])]
    ensures CacheGrows(env, language, nss, fc0, fc)
    ensures forall n | n in before :: n in fc && fc[n] == before[n]
  {
    var ns := nss[i];
    if BuildStep(env, language, ns).UseFallback? && ns !in before {
      assert fc == before[ns := FallbackRecord(env, ns)];
      forall n | n in fc && n !in fc0
        ensures n in nss && BuildStep(env, language, n).UseFallback? && fc[n] == FallbackRecord(env, n)
      {
        if n != ns {
          assert n in before;
        }
      }
    } else {
      assert fc == before;
    }
  }

  /** `records` holds, in order, what `buildNamespace` delivered for each of `nss`. */
  ghost predicate AllDelivered(env: Env, language: string, nss: seq<string>,
                               fc: map<string, NamespaceInfo>, records: seq<NamespaceInfo>) {
    DeliveredUpTo(env, language, nss, |nss|, fc, records)
  }

  /** `records` holds, in order, what `buildNamespace` delivered for the first `n` of `nss`. */
  ghost predicate DeliveredUpTo(env: Env, language: string, nss: seq<string>, n: nat,
                                fc: map<string, NamespaceInfo>, records: seq<NamespaceInfo>) {
    && n <= |nss| && |records| == n
    && forall k | 0 <= k < n ::
         records[k].namespace == nss[k] && WellFormed(records[k])
         && Delivered(env, language, nss[k], fc, records[k])
  }

  /** Appending the record of the next namespace keeps every earlier record delivered. */
  lemma DeliveredExtend(env: Env, language: string, nss: seq<string>, n: nat,
                        before: map<string, NamespaceInfo>, fc: map<string, NamespaceInfo>,
                        records: seq<NamespaceInfo>, info: NamespaceInfo)
    requires DeliveredUpTo(env, language, nss, n, before, records) && n < |nss|
    requires info.namespace == nss[n] && WellFormed(info) && Delivered(env, language, nss[n], fc, info)
    requires forall m | m in before :: m in fc && fc[m] == before[m]
    ensures DeliveredUpTo(env, language, nss, n + 1, fc, records + [info])
  {
    DeliveredUpToStable(env, language, nss, n, before, fc, records);
    DeliveredUpToAppend(env, language, nss, n, fc, records, info);
  }

  lemma DeliveredUpToStable(env: Env, language: string, nss: seq<string>, n: nat,
                            before: map<string, NamespaceInfo>, fc: map<string, NamespaceInfo>,
                            records: seq<NamespaceInfo>)
    requires DeliveredUpTo(env, language, nss, n, before, records)
    requires forall m | m in before :: m in fc && fc[m] == before[m]
    ensures DeliveredUpTo(env, language, nss, n, fc, records)
  {
    forall k | 0 <= k < n
      ensures Delivered(env, language, nss[k], fc, records[k])
    {
      DeliveredStable(env, language, nss[k], before, fc, records[k]);
    }
  }

  lemma DeliveredUpToAppend(env: Env, language: string, nss: seq<string>, n: nat,
                            fc: map<string, NamespaceInfo>, records: seq<NamespaceInfo>, info: NamespaceInfo)
    requires DeliveredUpTo(env, language, nss, n, fc, records) && n < |nss|
    requires info.namespace == nss[n] && WellFormed(info) && Delivered(env, language, nss[n], fc, info)
    ensures DeliveredUpTo(env, language, nss, n + 1, fc, records + [info])
  {
    var next := records + [info];
    forall k | 0 <= k < n + 1
      ensures next[k].namespace == nss[k] && WellFormed(next[k])
      ensures Delivered(env, language, nss[k], fc, next[k])
    {
      if k < n {
        assert next[k] == records[k];
      } else {
        assert next[k] == info;
      }
    }
  }


  class AdminSearch {
    /** `fallbackCache`: the fallback record of each namespace already asked for. */
    var fallbackCache: map<string, NamespaceInfo>
    /** `cache`: the dictionary of each language already built. */
    var cache: map<string, seq<NamespaceInfo>>

    /** Cached fallbacks are fallback records of their own namespace; cached dictionaries hold
        well-formed records of admin pages. */
    ghost predicate Valid()
      reads this
    {
      && (forall ns | ns in fallbackCache :: IsFallbackFor(ns, fallbackCache[ns]))
      && (forall language | language in cache ::
            forall k | 0 <= k < |cache[language]| ::
              WellFormed(cache[language][k]) && Namespaces.IsPage(cache[language][k].namespace))
    }

    /** Both caches start empty. */
    constructor ()
      ensures Valid()
      ensures fallbackCache == map[] && cache == map[]
    {
      fallbackCache := map[];
      cache := map[];
    }

    /** `fallback(namespace)`: the cached record, or a new one that is cached, whatever it is. */
    method Fallback(env: Env, ns: string) returns (r: NamespaceInfo)
      requires Valid()
      modifies this`fallbackCache
      ensures Valid()
      ensures ns in old(fallbackCache) ==> r == old(fallbackCache)[ns] && fallbackCache == old(fallbackCache)
      ensures ns !in old(fallbackCache) ==>
                r == FallbackRecord(env, ns) && fallbackCache == old(fallbackCache)[ns := r]
    {
      if ns in fallbackCache {
        return fallbackCache[ns];
      }
      r := InitFallback(env, ns);
      fallbackCache := fallbackCache[ns := r];
    }

    /** `buildNamespace(language, namespace)`. */
    method BuildNamespace(env: Env, language: string, ns: string) returns (r: NamespaceInfo)
      requires Valid()
      modifies this`fallbackCache
      ensures Valid()
      ensures r.namespace == ns && WellFormed(r)
      ensures Delivered(env, language, ns, fallbackCache, r)
      ensures BuildStep(env, language, ns).Built? ==> fallbackCache == old(fallbackCache)
      ensures BuildStep(env, language, ns).UseFallback? ==>
                fallbackCache == if ns in old(fallbackCache) then old(fallbackCache)
                                 else old(fallbackCache)[ns := FallbackRecord(env, ns)]
    {
      var translations := env.getTranslation(language, ns);
      if translations.Failed? {
        assert BuildStep(env, language, ns) == Built(EmptyRecord(ns));
        return EmptyRecord(ns);
      }
      if translations.value.None? || |translations.value.value| == 0 {
        assert BuildStep(env, language, ns) == UseFallback;
        r := Fallback(env, ns);
        return;
      }
      var entries := translations.value.value;
      var str := Join(Values(entries), "\n");
      str := env.sanitizeHtml(str);
      var title := Titles.TitleTemplate(ns);
      assert BuildStep(env, language, ns) == Built(TranslatedRecord(env, language, ns, entries, title));
      var translated := env.translate(language, title);
      if translated.Failed? {
        return EmptyRecord(ns);
      }
      title := translated.value;
      r := NamespaceInfo(ns, str + "\n" + title, Some(title));
    }

    /** `initDict(language)`: one record per admin namespace, in order. `Promise.all` is
        taken one namespace after the other. */
    method InitDict(env: Env, language: string) returns (r: seq<NamespaceInfo>)
      requires Valid()
      modifies this`fallbackCache
      ensures Valid()
      ensures forall k | 0 <= k < |r| :: WellFormed(r[k]) && Namespaces.IsPage(r[k].namespace)
      ensures AllDelivered(env, language, GetAdminNamespaces(env), fallbackCache, r)
      ensures CacheGrows(env, language, GetAdminNamespaces(env), old(fallbackCache), fallbackCache)
    {
      var namespaces := GetAdminNamespaces(env);
      r := [];
      var i := 0;
      while i < |namespaces|
        invariant 0 <= i <= |namespaces|
        invariant Valid()
        invariant DeliveredUpTo(env, language, namespaces, i, fallbackCache, r)
        invariant CacheGrows(env, language, namespaces, old(fallbackCache), fallbackCache)
      {
        ghost var before := fallbackCache;
        var info := BuildNamespace(env, language, namespaces[i]);
        GrowsStep(env, language, namespaces, i, old(fallbackCache), before, fallbackCache);
        DeliveredExtend(env, language, namespaces, i, before, fallbackCache, r, info);
        r := r + [info];
        i := i + 1;
      }
    }

    /** `getDictionary(language)`: the cached dictionary, or a new one that is cached. */
    method GetDictionary(env: Env, language: string) returns (r: seq<NamespaceInfo>)
      requires Valid()
      modifies this
      ensures Valid()
      ensures forall k | 0 <= k < |r| :: WellFormed(r[k]) && Namespaces.IsPage(r[k].namespace)
      ensures language in old(cache) ==>
                r == old(cache)[language] && cache == old(cache) && fallbackCache == old(fallbackCache)
      ensures language !in old(cache) ==> cache == old(cache)[language := r]
      ensures language !in old(cache) ==>
                && AllDelivered(env, language, GetAdminNamespaces(env), fallbackCache, r)
                && CacheGrows(env, language, GetAdminNamespaces(env), old(fallbackCache), fallbackCache)
    {
      if language in cache {
        return cache[language];
      }
      r := InitDict(env, language);
      cache := cache[language := r];
    }
  }

  /** A namespace's fallback record is built once: whatever the first call gave, an empty
      record after a failure included, later calls hand back. */
  method FallbackIsBuiltOnce(env1: Env, env2: Env, ns: string) returns (first: NamespaceInfo, second: NamespaceInfo)
    ensures first == FallbackRecord(env1, ns) && second == first
    ensures InitFallbackOutcome(env1, ns).Failed? ==> second == EmptyRecord(ns)
  {
    var search := new AdminSearch();
    first := search.Fallback(env1, ns);
    second := search.Fallback(env2, ns);
  }

  /** A language's dictionary is built once, one record per admin page in walk order, and
      handed back unchanged afterwards. */
  method DictionaryIsBuiltOnce(env1: Env, env2: Env, language: string)
    returns (first: seq<NamespaceInfo>, second: seq<NamespaceInfo>)
    ensures second == first
    ensures |first| == |GetAdminNamespaces(env1)|
    ensures forall k | 0 <= k < |first| :: first[k].namespace == GetAdminNamespaces(env1)[k]
  {
    var search := new AdminSearch();
    first := search.GetDictionary(env1, language);
    second := search.GetDictionary(env2, language);
  }

  /** When the admin views cannot be listed the dictionary is empty, and that empty dictionary
      stays cached for the language. */
  method UnlistableViewsGiveEmptyDictionary(env1: Env, env2: Env, language: string)
    returns (first: seq<NamespaceInfo>, second: seq<NamespaceInfo>)
    requires env1.viewsDir.None? || env1.walk(env1.viewsDir.value).Failed?
    ensures first == [] && second == []
  {
    var search := new AdminSearch();
    first := search.GetDictionary(env1, language);
    second := search.GetDictionary(env2, language);
  }

  /** A translated page `admin/X/Y` is titled by the translation of its menu entries. */
  lemma TranslatedPageTitle(env: Env, language: string, section: string, page: string)
    requires section != [] && '/' !in section && LineFree(section)
    requires page != [] && LineFree(page)
    requires env.getTranslation(language, "admin/" + section + "/" + page).Ok?
    requires env.getTranslation(language, "admin/" + section + "/" + page).value.Some?
    requires env.getTranslation(language, "admin/" + section + "/" + page).value.value != []
    requires env.translate(language, "[[admin/menu:section-" + Titles.SectionKey(section)
                                     + "]] > [[admin/menu:" + section + "/" + page + "]]").Ok?
    ensures BuildStep(env, language, "admin/" + section + "/" + page).Built?
    ensures BuildStep(env, language, "admin/" + section + "/" + page).info.title ==
              Some(env.translate(language, "[[admin/menu:section-" + Titles.SectionKey(section)
                                           + "]] > [[admin/menu:" + section + "/" + page + "]]").value)
  {
    Titles.TitleTemplateOfPage(section, page);
  }
}

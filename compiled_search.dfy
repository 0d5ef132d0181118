/**
 * The compiled JavaScript form of the admin search module. Its pure helpers are
 * those of the TypeScript module; it differs in what it does not catch: a views
 * directory that is not a string or a failed walk rejects the dictionary, a
 * failed fallback rejects (and `buildNamespace` turns that into an empty record),
 * and a namespace the menu pattern does not match fails on `null[1]` and also
 * gives an empty record. Rejections are never cached.
 */
module CompiledSearch {
  import opened Wrappers
  import opened Text
  import Namespaces
  import Simplifier
  import Titles
  import opened Records
  import Search

  /** `getAdminNamespaces()`: the admin pages, rejecting when the views cannot be walked. */
  function GetAdminNamespaces(env: Env): (r: Outcome<seq<string>>)
    ensures r.Failed? <==> env.viewsDir.None? || env.walk(env.viewsDir.value).Failed?
    ensures r.Ok? ==> r.value == Search.GetAdminNamespaces(env)
    ensures r.Ok? ==> forall k | 0 <= k < |r.value| :: Namespaces.IsPage(r.value[k])
  {
    if env.viewsDir.None? then Failed
    else match env.walk(env.viewsDir.value)
      case Failed => Failed
      case Ok(dirs) => Ok(Namespaces.FilterDirectories(dirs, env.sep))
  }

  /** `initFallback(namespace)`, step by step, with nothing caught. */
  method InitFallback(env: Env, ns: string) returns (r: Outcome<NamespaceInfo>)
    ensures r == InitFallbackOutcome(env, ns)
  {
    if env.viewsDir.None? {
      return Failed;
    }
    var template := env.readFile(env.viewsDir.value, ns + ".tpl");
    if template.Failed? {
      return Failed;
    }
    var title := Titles.NsToTitle(ns);
    if title.Failed? {
      return Failed;
    }
    var translations := env.sanitizeHtml(template.value);
    translations := env.removePatterns(translations);
    translations := Simplifier.Simplify(translations);
    translations := translations + "\n" + title.value;
    r := Ok(NamespaceInfo(ns, translations, Some(title.value)));
  }

  /** What the compiled `buildNamespace(language, ns)` decides before consulting the fallback. */
  function BuildStep(env: Env, language: string, ns: string): (s: Step)
    ensures s.Built? ==> s.info.namespace == ns && WellFormed(s.info)
    ensures env.getTranslation(language, ns).Failed? ==> s == Built(EmptyRecord(ns))
    ensures s.UseFallback? <==>
              env.getTranslation(language, ns).Ok?
              && (env.getTranslation(language, ns).value.None? || env.getTranslation(language, ns).value.value == [])
    ensures env.getTranslation(language, ns).Ok? && env.getTranslation(language, ns).value.Some?
            && env.getTranslation(language, ns).value.value != [] ==>
              s == match Titles.MenuMatch(ns)
                   case None => Built(EmptyRecord(ns))
                   case Some((section, page)) =>
                     Built(TranslatedRecord(env, language, ns, env.getTranslation(language, ns).value.value,
                                            Titles.MenuTitleTemplate(section, page)))
  {
    match env.getTranslation(language, ns)
    case Failed => Built(EmptyRecord(ns))
    case Ok(None) => UseFallback
    case Ok(Some(entries)) =>
      if |entries| == 0 then UseFallback
      else match Titles.MenuMatch(ns)
        case None => Built(EmptyRecord(ns))
        case Some((section, page)) =>
          Built(TranslatedRecord(env, language, ns, entries, Titles.MenuTitleTemplate(section, page)))
  }

  /** The compiled module decides as the TypeScript one, except on a namespace the menu
      pattern does not match: there a translated namespace gets the empty record instead of
      a record titled by translating "". */
  lemma BuildStepAgreement(env: Env, language: string, ns: string)
    ensures Titles.MenuMatch(ns).Some? ==> BuildStep(env, language, ns) == Search.BuildStep(env, language, ns)
    ensures Titles.MenuMatch(ns).None? && Search.BuildStep(env, language, ns).Built? ==>
              BuildStep(env, language, ns) == Built(EmptyRecord(ns))
    ensures Titles.MenuMatch(ns).None? && Search.BuildStep(env, language, ns).UseFallback? ==>
              BuildStep(env, language, ns) == UseFallback
  {
    match Titles.MenuMatch(ns)
    case None =>
    case Some((section, page)) =>
      assert Titles.TitleTemplate(ns) == Titles.MenuTitleTemplate(section, page);
  }

  /** `r` is what the compiled `buildNamespace(language, ns)` resolves to once the fallback
      cache is `fc`: a failed fallback leaves no entry and gives the empty record. */
  ghost predicate Delivered(env: Env, language: string, ns: string, fc: map<string, NamespaceInfo>,
                            r: NamespaceInfo) {
    match BuildStep(env, language, ns)
    case Built(info) => r == info
    case UseFallback =>
      || (ns in fc && r == fc[ns])
      || (ns !in fc && r == EmptyRecord(ns) && InitFallbackOutcome(env, ns).Failed?)
  }

  /** `fc` keeps every entry of `fc0`; each entry it adds is the settled fallback of a
      namespace of `nss` the translator had nothing for. */
  ghost predicate CacheGrows(env: Env, language: string, nss: seq<string>,
                             fc0: map<string, NamespaceInfo>, fc: map<string, NamespaceInfo>) {
    && (forall ns | ns in fc0 :: ns in fc && fc[ns] == fc0[ns])
    && (forall ns | ns in fc && ns !in fc0 ::
          ns in nss && BuildStep(env, language, ns).UseFallback?
          && InitFallbackOutcome(env, ns) == Ok(fc[ns]))
  }

  /** What a namespace was delivered stays delivered while the cache only gains entries of
      fallbacks that resolved. */
  lemma DeliveredStable(env: Env, language: string, ns: string, fc0: map<string, NamespaceInfo>,
                        fc: map<string, NamespaceInfo>, r: NamespaceInfo)
    requires Delivered(env, language, ns, fc0, r)
    requires forall n | n in fc0 :: n in fc && fc[n] == fc0[n]
    requires forall n | n in fc && n !in fc0 :: InitFallbackOutcome(env, n).Ok?
    ensures Delivered(env, language, ns, fc, r)
  {
  }

  /** One `buildNamespace` step keeps the cache growing as `CacheGrows` says. */
  lemma GrowsStep(env: Env, language: string, nss: seq<string>, i: nat,
                  fc0: map<string, NamespaceInfo>, before: map<string, NamespaceInfo>,
                  fc: map<string, NamespaceInfo>)
    requires i < |nss|
    requires CacheGrows(env, language, nss, fc0, before)
    requires BuildStep(env, language, nss[i]).Built? ==> fc == before
    requires BuildStep(env, language, nss[i]).UseFallback? ==>
               fc == if nss[i] in before || InitFallbackOutcome(env, nss[i]).Failed? then before
                     else before[nss[i] := InitFallbackOutcome(env, nss[i]).value]
    ensures CacheGrows(env, language, nss, fc0, fc)
    ensures forall n | n in before :: n in fc && fc[n] == before[n]
    ensures forall n | n in fc && n !in before :: InitFallbackOutcome(env, n).Ok?
  {
    var ns := nss[i];
    StepKeeps(env, language, ns, before, fc);
    if BuildStep(env, language, ns).UseFallback? && ns !in before && InitFallbackOutcome(env, ns).Ok? {
      GrowsByOne(env, language, nss, fc0, before, ns, InitFallbackOutcome(env, ns).value);
    } else {
      assert fc == before;
    }
  }

  /** One `buildNamespace` step keeps every cached fallback and adds only settled ones. */
  lemma StepKeeps(env: Env, language: string, ns: string,
                  before: map<string, NamespaceInfo>, fc: map<string, NamespaceInfo>)
    requires BuildStep(env, language, ns).Built? ==> fc == before
    requires BuildStep(env, language, ns).UseFallback? ==>
               fc == if ns in before || InitFallbackOutcome(env, ns).Failed? then before
                     else before[ns := InitFallbackOutcome(env, ns).value]
    ensures forall n | n in before :: n in fc && fc[n] == before[n]
    ensures forall n | n in fc && n !in before :: InitFallbackOutcome(env, n).Ok?
  {
    if fc != before {
      assert fc == before[ns := InitFallbackOutcome(env, ns).value];
    }
  }

  /** Caching the settled fallback of one more namespace of `nss` keeps the cache growing. */
  lemma GrowsByOne(env: Env, language: string, nss: seq<string>, fc0: map<string, NamespaceInfo>,
                   before: map<string, NamespaceInfo>, ns: string, info: NamespaceInfo)
    requires CacheGrows(env, language, nss, fc0, before)
    requires ns in nss && ns !in before
    requires BuildStep(env, language, ns).UseFallback? && InitFallbackOutcome(env, ns) == Ok(info)
    ensures CacheGrows(env, language, nss, fc0, before[ns := info])
  {
    var fc := before[ns := info];
    forall n | n in fc && n !in fc0
      ensures n in nss && BuildStep(env, language, n).UseFallback? && InitFallbackOutcome(env, n) == Ok(fc[n])
    {
      if n != ns {
        assert n in before;
      }
    }
  }

  /** `records` holds, in order, what `buildNamespace` delivered for each of `nss`. */
  ghost predicate AllDelivered(env: Env, language: string, nss: seq<string>,
                               fc: map<string, NamespaceInfo>, records: seq<NamespaceInfo>) {
    DeliveredUpTo(env, language, nss, |nss|, fc, records)
  }

  /** `records` holds, in order, what `buildNamespace` delivered for the first `n` of `nss`. */
  ghost predicate DeliveredUpTo(env: Env, language: string, nss: seq<string>, n: nat,
                                fc: map<string, NamespaceInfo>, records: seq<NamespaceInfo>) {
    && n <= |nss| && |records| == n
    && forall k | 0 <= k < n ::
         records[k].namespace == nss[k] && WellFormed(records[k])
         && Delivered(env, language, nss[k], fc, records[k])
  }

  /** Appending the record of the next namespace keeps every earlier record delivered. */
  lemma DeliveredExtend(env: Env, language: string, nss: seq<string>, n: nat,
                        before: map<string, NamespaceInfo>, fc: map<string, NamespaceInfo>,
                        records: seq<NamespaceInfo>, info: NamespaceInfo)
    requires DeliveredUpTo(env, language, nss, n, before, records) && n < |nss|
    requires info.namespace == nss[n] && WellFormed(info) && Delivered(env, language, nss[n], fc, info)
    requires forall m | m in before :: m in fc && fc[m] == before[m]
    requires forall m | m in fc && m !in before :: InitFallbackOutcome(env, m).Ok?
    ensures DeliveredUpTo(env, language, nss, n + 1, fc, records + [info])
  {
    DeliveredUpToStable(env, language, nss, n, before, fc, records);
    DeliveredUpToAppend(env, language, nss, n, fc, records, info);
  }

  lemma DeliveredUpToStable(env: Env, language: string, nss: seq<string>, n: nat,
                            before: map<string, NamespaceInfo>, fc: map<string, NamespaceInfo>,
                            records: seq<NamespaceInfo>)
    requires DeliveredUpTo(env, language, nss, n, before, records)
    requires forall m | m in before :: m in fc && fc[m] == before[m]
    requires forall m | m in fc && m !in before :: InitFallbackOutcome(env, m).Ok?
    ensures DeliveredUpTo(env, language, nss, n, fc, records)
  {
    forall k | 0 <= k < n
      ensures Delivered(env, language, nss[k], fc, records[k])
    {
      DeliveredStable(env, language, nss[k], before, fc, records[k]);
    }
  }

  lemma DeliveredUpToAppend(env: Env, language: string, nss: seq<string>, n: nat,
                            fc: map<string, NamespaceInfo>, records: seq<NamespaceInfo>, info: NamespaceInfo)
    requires DeliveredUpTo(env, language, nss, n, fc, records) && n < |nss|
    requires info.namespace == nss[n] && WellFormed(info) && Delivered(env, language, nss[n], fc, info)
    ensures DeliveredUpTo(env, language, nss, n + 1, fc, records + [info])
  {
    var next := records + [info];
    forall k | 0 <= k < n + 1
      ensures next[k].namespace == nss[k] && WellFormed(next[k])
      ensures Delivered(env, language, nss[k], fc, next[k])
    {
      if k < n {
        assert next[k] == records[k];
      } else {
        assert next[k] == info;
      }
    }
  }


  class CompiledAdminSearch {
    /** `fallbackCache`: the record of each namespace whose fallback has resolved. */
    var fallbackCache: map<string, NamespaceInfo>
    /** `cache`: the dictionary of each language already built. */
    var cache: map<string, seq<NamespaceInfo>>

    /** Cached fallbacks are titled fallback records of their own namespace; cached
        dictionaries hold well-formed records of admin pages. */
    ghost predicate Valid()
      reads this
    {
      && (forall ns | ns in fallbackCache ::
            IsFallbackFor(ns, fallbackCache[ns]) && fallbackCache[ns].title.Some?)
      && (forall language | language in cache ::
            forall k | 0 <= k < |cache[language]| ::
              WellFormed(cache[language][k]) && Namespaces.IsPage(cache[language][k].namespace))
    }

    /** Both caches start empty. */
    constructor ()
      ensures Valid()
      ensures fallbackCache == map[] && cache == map[]
    {
      fallbackCache := map[];
      cache := map[];
    }

    /** `fallback(namespace)`: the cached record, or the settled `initFallback`, cached only
        when it resolves. */
    method Fallback(env: Env, ns: string) returns (r: Outcome<NamespaceInfo>)
      requires Valid()
      modifies this`fallbackCache
      ensures Valid()
      ensures ns in old(fallbackCache) ==> r == Ok(old(fallbackCache)[ns]) && fallbackCache == old(fallbackCache)
      ensures ns !in old(fallbackCache) ==> r == InitFallbackOutcome(env, ns)
      ensures ns !in old(fallbackCache) && r.Ok? ==> fallbackCache == old(fallbackCache)[ns := r.value]
      ensures r.Failed? ==> fallbackCache == old(fallbackCache)
    {
      if ns in fallbackCache {
        return Ok(fallbackCache[ns]);
      }
      r := InitFallback(env, ns);
      if r.Failed? {
        return;
      }
      fallbackCache := fallbackCache[ns := r.value];
    }

    /** `buildNamespace(language, namespace)` of the compiled module. */
    method BuildNamespace(env: Env, language: string, ns: string) returns (r: NamespaceInfo)
      requires Valid()
      modifies this`fallbackCache
      ensures Valid()
      ensures r.namespace == ns && WellFormed(r)
      ensures Delivered(env, language, ns, fallbackCache, r)
      ensures BuildStep(env, language, ns).Built? ==> fallbackCache == old(fallbackCache)
      ensures BuildStep(env, language, ns).UseFallback? ==>
                fallbackCache == if ns in old(fallbackCache) || InitFallbackOutcome(env, ns).Failed?
                                 then old(fallbackCache)
                                 else old(fallbackCache)[ns := InitFallbackOutcome(env, ns).value]
    {
      var translations := env.getTranslation(language, ns);
      if translations.Failed? {
        assert BuildStep(env, language, ns) == Built(EmptyRecord(ns));
        return EmptyRecord(ns);
      }
      if translations.value.None? || |translations.value.value| == 0 {
        assert BuildStep(env, language, ns) == UseFallback;
        var settled := Fallback(env, ns);
        if settled.Failed? {
          return EmptyRecord(ns);
        }
        return settled.value;
      }
      var entries := translations.value.value;
      var str := Join(Values(entries), "\n");
      str := env.sanitizeHtml(str);
      var groups := Titles.MenuMatch(ns);
      if groups.None? {
        assert BuildStep(env, language, ns) == Built(EmptyRecord(ns));
        return EmptyRecord(ns);
      }
      var template := Titles.MenuTitleTemplate(groups.value.0, groups.value.1);
      assert BuildStep(env, language, ns) == Built(TranslatedRecord(env, language, ns, entries, template));
      var translated := env.translate(language, template);
      if translated.Failed? {
        return EmptyRecord(ns);
      }
      var title := translated.value;
      r := NamespaceInfo(ns, str + "\n" + title, Some(title));
    }

    /** `initDict(language)`: rejects when the namespaces cannot be listed, otherwise one
        record per namespace, in order. `Promise.all` is taken one namespace after the other. */
    method InitDict(env: Env, language: string) returns (r: Outcome<seq<NamespaceInfo>>)
      requires Valid()
      modifies this`fallbackCache
      ensures Valid()
      ensures r.Failed? <==> GetAdminNamespaces(env).Failed?
      ensures r.Failed? ==> fallbackCache == old(fallbackCache)
      ensures r.Ok? ==> forall k | 0 <= k < |r.value| :: WellFormed(r.value[k]) && Namespaces.IsPage(r.value[k].namespace)
      ensures r.Ok? ==> AllDelivered(env, language, GetAdminNamespaces(env).value, fallbackCache, r.value)
      ensures r.Ok? ==> CacheGrows(env, language, GetAdminNamespaces(env).value, old(fallbackCache), fallbackCache)
    {
      var listed := GetAdminNamespaces(env);
      if listed.Failed? {
        return Failed;
      }
      var namespaces := listed.value;
      var records: seq<NamespaceInfo> := [];
      var i := 0;
      while i < |namespaces|
        invariant 0 <= i <= |namespaces|
        invariant Valid()
        invariant DeliveredUpTo(env, language, namespaces, i, fallbackCache, records)
        invariant CacheGrows(env, language, namespaces, old(fallbackCache), fallbackCache)
      {
        ghost var before := fallbackCache;
        var info := BuildNamespace(env, language, namespaces[i]);
        GrowsStep(env, language, namespaces, i, old(fallbackCache), before, fallbackCache);
        DeliveredExtend(env, language, namespaces, i, before, fallbackCache, records, info);
        records := records + [info];
        i := i + 1;
      }
      r := Ok(records);
    }

    /** `getDictionary(language)`: the cached dictionary, or a new one, cached only when it
        resolves. */
    method GetDictionary(env: Env, language: string) returns (r: Outcome<seq<NamespaceInfo>>)
      requires Valid()
      modifies this
      ensures Valid()
      ensures r.Ok? ==> forall k | 0 <= k < |r.value| :: WellFormed(r.value[k]) && Namespaces.IsPage(r.value[k].namespace)
      ensures language in old(cache) ==>
                r == Ok(old(cache)[language]) && cache == old(cache) && fallbackCache == old(fallbackCache)
      ensures language !in old(cache) ==> (r.Failed? <==> GetAdminNamespaces(env).Failed?)
      ensures r.Failed? ==> cache == old(cache) && fallbackCache == old(fallbackCache)
      ensures language !in old(cache) && r.Ok? ==>
                && cache == old(cache)[language := r.value]
                && AllDelivered(env, language, GetAdminNamespaces(env).value, fallbackCache, r.value)
                && CacheGrows(env, language, GetAdminNamespaces(env).value, old(fallbackCache), fallbackCache)
    {
      if language in cache {
        return Ok(cache[language]);
      }
      r := InitDict(env, language);
      if r.Failed? {
        return;
      }
      cache := cache[language := r.value];
    }
  }

  /** A fallback that rejects is not cached: the next call tries `initFallback` again. */
  method FailedFallbackIsRetried(env1: Env, env2: Env, ns: string)
    returns (first: Outcome<NamespaceInfo>, second: Outcome<NamespaceInfo>)
    requires InitFallbackOutcome(env1, ns).Failed?
    ensures first.Failed?
    ensures second == InitFallbackOutcome(env2, ns)
  {
    var search := new CompiledAdminSearch();
    first := search.Fallback(env1, ns);
    second := search.Fallback(env2, ns);
  }

  /** A resolved fallback is cached: later calls give it back. */
  method ResolvedFallbackIsKept(env1: Env, env2: Env, ns: string)
    returns (first: Outcome<NamespaceInfo>, second: Outcome<NamespaceInfo>)
    requires InitFallbackOutcome(env1, ns).Ok?
    ensures first == InitFallbackOutcome(env1, ns) && second == first
  {
    var search := new CompiledAdminSearch();
    first := search.Fallback(env1, ns);
    second := search.Fallback(env2, ns);
  }

  /** A dictionary that rejects because the views cannot be listed is not cached: the next
      call lists them again. */
  method FailedDictionaryIsRetried(env1: Env, env2: Env, language: string)
    returns (first: Outcome<seq<NamespaceInfo>>, second: Outcome<seq<NamespaceInfo>>)
    requires env1.viewsDir.None? || env1.walk(env1.viewsDir.value).Failed?
    ensures first.Failed?
    ensures second.Failed? <==> env2.viewsDir.None? || env2.walk(env2.viewsDir.value).Failed?
    ensures second.Ok? ==> |second.value| == |Search.GetAdminNamespaces(env2)|
    ensures second.Ok? ==> forall k | 0 <= k < |second.value| ::
              second.value[k].namespace == Search.GetAdminNamespaces(env2)[k]
  {
    var search := new CompiledAdminSearch();
    first := search.GetDictionary(env1, language);
    second := search.GetDictionary(env2, language);
  }
}

/**
 * The dictionary entries and how they are composed, shared by the TypeScript
 * module and its compiled JavaScript form. The collaborators the module calls
 * but does not define (configuration, file system, HTML sanitiser, translator)
 * are the fields of an `Env`: each gives back what the real call would settle to.
 */
module Records {
  import opened Wrappers
  import opened Text
  import Simplifier
  import Titles

  /** One entry of the dictionary: `{ namespace, translations, title? }`. */
  datatype NamespaceInfo = NamespaceInfo(namespace: string, translations: string, title: Option<string>)

  datatype Env = Env(
    /** `nconf.get('views_dir')`, or `None` when it is not a string. */
    viewsDir: Option<string>,
    /** `path.sep`. */
    sep: char,
    /** `file.walk(path.resolve(viewsDir, 'admin'))`: every file below the admin views. */
    walk: string -> Outcome<seq<string>>,
    /** Reading `path.resolve(viewsDir, relative)` as UTF-8. */
    readFile: (string, string) -> Outcome<string>,
    /** `sanitizeHTML(html, { allowedTags: [], allowedAttributes: [] })`. */
    sanitizeHtml: string -> string,
    /** `Translator.removePatterns`. */
    removePatterns: string -> string,
    /** `Translator.create(language).getTranslation(namespace)`: `None` for a missing map,
        otherwise its entries in key order. */
    getTranslation: (string, string) -> Outcome<Option<seq<(string, string)>>>,
    /** `Translator.create(language).translate(text)`. */
    translate: (string, string) -> Outcome<string>)

  /** The record every caught error degrades to: no text and no title. */
  function EmptyRecord(ns: string): NamespaceInfo {
    NamespaceInfo(ns, "", None)
  }

  /** A record carries either no title and no text, or text that ends with a newline and the title. */
  predicate WellFormed(r: NamespaceInfo) {
    && (r.title.None? ==> r.translations == "")
    && (r.title.Some? ==> EndsWith(r.translations, "\n" + r.title.value))
  }

  /** Text followed by a newline and a title ends with that newline and title. */
  lemma TitledTextEnds(text: string, title: string)
    ensures EndsWith(text + "\n" + title, "\n" + title)
  {
    assert (text + "\n" + title)[|text|..] == "\n" + title;
  }

  /** A record the fallback may hand out for `ns`: well formed, and titled by `nsToTitle(ns)`
      when it has a title. */
  predicate IsFallbackFor(ns: string, r: NamespaceInfo) {
    && r.namespace == ns
    && WellFormed(r)
    && (r.title.Some? ==> Titles.NsToTitle(ns) == Ok(r.title.value))
  }

  /** The searchable text of a raw template: sanitised, without translation patterns, simplified. */
  function TemplateText(env: Env, template: string): (r: string)
    ensures Simplifier.Simplified(r) && Simplifier.NoMustache(r)
  {
    Simplifier.Simplify(env.removePatterns(env.sanitizeHtml(template)))
  }

  /** The record `initFallback` builds from a template it has read: the template text, a newline
      and `nsToTitle(ns)`; it rejects exactly when `nsToTitle` throws. */
  function FallbackFromTemplate(env: Env, ns: string, template: string): (r: Outcome<NamespaceInfo>)
    ensures r.Failed? <==> Titles.NsToTitle(ns).Failed?
    ensures r.Ok? ==> IsFallbackFor(ns, r.value) && r.value.title.Some?
    ensures r.Ok? ==> r.value.translations == TemplateText(env, template) + "\n" + r.value.title.value
  {
    match Titles.NsToTitle(ns)
    case Failed => Failed
    case Ok(title) =>
      var text := TemplateText(env, template);
      TitledTextEnds(text, title);
      Ok(NamespaceInfo(ns, text + "\n" + title, Some(title)))
  }

  /** How the body of `initFallback` settles when nothing catches its errors: it rejects when
      the views directory is not a string, the template `<ns>.tpl` cannot be read, or
      `nsToTitle` throws; otherwise it builds the record from the template. */
  function InitFallbackOutcome(env: Env, ns: string): (r: Outcome<NamespaceInfo>)
    ensures r.Failed? <==>
              (|| env.viewsDir.None?
               || env.readFile(env.viewsDir.value, ns + ".tpl").Failed?
               || Titles.NsToTitle(ns).Failed?)
    ensures r.Ok? ==>
              r == FallbackFromTemplate(env, ns, env.readFile(env.viewsDir.value, ns + ".tpl").value)
  {
    if env.viewsDir.None? then Failed
    else match env.readFile(env.viewsDir.value, ns + ".tpl")
      case Failed => Failed
      case Ok(template) => FallbackFromTemplate(env, ns, template)
  }

  /** `Object.keys(translations).map(key => translations[key])`. */
  function Values(entries: seq<(string, string)>): (r: seq<string>)
    ensures |r| == |entries|
    ensures forall k | 0 <= k < |r| :: r[k] == entries[k].1
  {
    if entries == [] then [] else [entries[0].1] + Values(entries[1..])
  }

  /** The record `buildNamespace` returns for a non-empty translation map: the sanitised
      newline-joined values, a newline and the translated title, with that title; the empty
      record when the translation of the title template rejects. */
  function TranslatedRecord(env: Env, language: string, ns: string, entries: seq<(string, string)>,
                            template: string): (r: NamespaceInfo)
    ensures r.namespace == ns && WellFormed(r)
    ensures r.title.Some? <==> env.translate(language, template).Ok?
    ensures r.title.Some? ==> r.title.value == env.translate(language, template).value
    ensures r.title.Some? ==>
              r.translations == env.sanitizeHtml(Join(Values(entries), "\n")) + "\n" + r.title.value
  {
    match env.translate(language, template)
    case Failed => EmptyRecord(ns)
    case Ok(title) =>
      var text := env.sanitizeHtml(Join(Values(entries), "\n"));
      TitledTextEnds(text, title);
      NamespaceInfo(ns, text + "\n" + title, Some(title))
  }

  /** What `buildNamespace` decides before any fallback: use the fallback, or this record. */
  datatype Step = UseFallback | Built(info: NamespaceInfo)
}

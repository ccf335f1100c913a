/**
 * What passes between the extension and Safari: the page context that the
 * preprocessing script hands in, and the finalize argument handed back when
 * the request completes.
 */
module HostBridge {
  import opened Optional

  /** A property-list value, as far as the extension inspects it. */
  datatype PlistValue =
    | PlistString(text: string)
    | PlistDictionary(entries: map<string, PlistValue>)
    | PlistOther

  /** The item key under which Safari delivers the preprocessing results. */
  const PreprocessingResultsKey := "NSExtensionJavaScriptPreprocessingResultsKey"
  /** The item key under which the extension returns the finalize argument. */
  const FinalizeArgumentKey := "NSExtensionJavaScriptFinalizeArgumentKey"
  const TitleKey := "title"
  const URLKey := "URL"
  /** The finalize argument's single entry: the code to run in the page. */
  const CodeArgumentKey := "code"
  /** What is sent when the editor holds no text at all. */
  const NoCodeFallback := "alert('No JavaScript code entered.');"

  /** The page's title and address, as the controller stores them. */
  datatype PageContext = PageContext(title: string, url: string)

  /** `results[key] as? String ?? ""`: the entry when it is a string, otherwise empty. */
  function StringOrEmpty(results: map<string, PlistValue>, key: string): (s: string)
    ensures key in results && results[key].PlistString? ==> s == results[key].text
    ensures key !in results || !results[key].PlistString? ==> s == ""
  {
    if key in results then
      match results[key]
      case PlistString(text) => text
      case _ => ""
    else ""
  }

  /** The preprocessing results inside a loaded item, if the item and the entry are dictionaries. */
  predicate HasResults(item: Option<PlistValue>)
  {
    && item.Some? && item.value.PlistDictionary?
    && PreprocessingResultsKey in item.value.entries
    && item.value.entries[PreprocessingResultsKey].PlistDictionary?
  }

  /**
   * The page context carried by a loaded item; `None` when either guard
   * returns early, in which case the controller keeps what it had.
   */
  function PageContextOf(item: Option<PlistValue>): (r: Option<PageContext>)
    ensures r.Some? <==> HasResults(item)
    ensures r.Some? ==>
      var results := item.value.entries[PreprocessingResultsKey].entries;
      && (TitleKey in results && results[TitleKey].PlistString? ==> r.value.title == results[TitleKey].text)
      && (TitleKey !in results || !results[TitleKey].PlistString? ==> r.value.title == "")
      && (URLKey in results && results[URLKey].PlistString? ==> r.value.url == results[URLKey].text)
      && (URLKey !in results || !results[URLKey].PlistString? ==> r.value.url == "")
  {
    match item
    case Some(PlistDictionary(entries)) =>
      if PreprocessingResultsKey in entries then
        match entries[PreprocessingResultsKey]
        case PlistDictionary(results) =>
          Some(PageContext(StringOrEmpty(results, TitleKey), StringOrEmpty(results, URLKey)))
        case _ => None
      else None
    case _ => None
  }

  /** How the extension ends its request. */
  datatype Completion =
    | NoItems                                   // `cancel`: returning no items
    | ReturnItem(item: map<string, map<string, string>>) // one item: its dictionary, keyed by FinalizeArgumentKey

  /** `["code": text ?? fallback]`: the editor's text, or the fallback only when there is no text. */
  function FinalizeArgumentFor(text: Option<string>): (argument: map<string, string>)
    ensures argument.Keys == {CodeArgumentKey}
    ensures text.Some? ==> argument[CodeArgumentKey] == text.value
    ensures text.None? ==> argument[CodeArgumentKey] == NoCodeFallback
  {
    map[CodeArgumentKey := text.GetOr(NoCodeFallback)]
  }

  /**
   * `[NSExtensionJavaScriptFinalizeArgumentKey: argument]`: the dictionary of
   * the returned item, whose only entry is the finalize argument for `text`.
   */
  function FinalizeItemFor(text: Option<string>): (item: map<string, map<string, string>>)
    ensures item.Keys == {FinalizeArgumentKey}
    ensures item[FinalizeArgumentKey].Keys == {CodeArgumentKey}
    ensures item[FinalizeArgumentKey][CodeArgumentKey] == text.GetOr(NoCodeFallback)
  {
    map[FinalizeArgumentKey := FinalizeArgumentFor(text)]
  }

  /**
   * Unless the editor holds the fallback's own text, the fallback is sent
   * exactly when there is no text; an empty text is sent as it is.
   */
  lemma FallbackOnlyWithoutText(text: Option<string>)
    requires text != Some(NoCodeFallback)
    ensures FinalizeArgumentFor(text)[CodeArgumentKey] == NoCodeFallback <==> text.None?
    ensures text == Some("") ==> FinalizeArgumentFor(text)[CodeArgumentKey] == ""
  {
  }

  /** Different texts give different arguments, so the page receives exactly what was typed. */
  lemma FinalizeArgumentInjective(a: string, b: string)
    requires FinalizeArgumentFor(Some(a)) == FinalizeArgumentFor(Some(b))
    ensures a == b
  {
    assert FinalizeArgumentFor(Some(a))[CodeArgumentKey] == a;
  }
}

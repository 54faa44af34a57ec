/** Choosing the transcript language offered first.

    The language list is what the transcript-listing service reported, in
    its order, or `None` when the listing raised; the source catches every
    exception there and continues with an empty list. */
module Languages {
  import opened Options

  /** The language preferred whenever the video offers it. */
  const PreferredLanguage := "en"

  /** The language selector: the codes offered and the position selected
      at first. */
  datatype Selector = Selector(options: seq<string>, index: nat)

  /** `list.index`: the position of the first occurrence of x. */
  function IndexOf(langs: seq<string>, x: string): (k: nat)
    requires x in langs
    ensures k < |langs| && langs[k] == x
    ensures forall j :: 0 <= j < k ==> langs[j] != x
  {
    if langs[0] == x then 0 else 1 + IndexOf(langs[1..], x)
  }

  /** The default choice: the preferred language when offered, otherwise the
      first language listed. Only asked for when some language is offered. */
  function DefaultLanguage(langs: seq<string>): (lang: string)
    requires |langs| > 0
    ensures lang in langs
    ensures lang == PreferredLanguage <==> PreferredLanguage in langs
    ensures PreferredLanguage !in langs ==> lang == langs[0]
  {
    if PreferredLanguage in langs then PreferredLanguage else langs[0]
  }

  /** The selector shown for a listing: none when no language is available
      (the listing failed or returned nothing), otherwise every listed code
      with the default choice selected. */
  function LanguageSelector(listed: Option<seq<string>>): (sel: Option<Selector>)
    ensures sel.Some? <==> listed.Some? && |listed.value| > 0
    ensures sel.Some? ==> sel.value.options == listed.value
  {
    match listed
    case None => None
    case Some(langs) =>
      if |langs| == 0 then None
      else Some(Selector(langs, IndexOf(langs, DefaultLanguage(langs))))
  }

  /** The selector's initial index is in bounds and points at the preferred
      language when it is offered and at the first language otherwise; it is
      the first position holding that language. */
  lemma SelectorIndex(listed: Option<seq<string>>)
    requires listed.Some? && |listed.value| > 0
    ensures var sel := LanguageSelector(listed).value;
            && sel.index < |sel.options|
            && (PreferredLanguage in sel.options ==> sel.options[sel.index] == PreferredLanguage)
            && (PreferredLanguage !in sel.options ==> sel.index == 0)
            && forall j :: 0 <= j < sel.index ==> sel.options[j] != sel.options[sel.index]
  {
  }
}

/** `buildSvgDataURI`: collect the readable css, let the caller's hook
    replace it, put it in a `<style>` element before the serialized node,
    inline the resources when a fetcher is given, and wrap the result in an
    SVG data URI. */
module Screenshot {
  import opened Wrappers
  import opened Text
  import opened Styles
  import opened Inliner
  import opened Svg
  import opened Sequences

  /** The options the caller passes. */
  datatype Options = Options(
    width: int,
    height: int,
    css: Option<string -> Promised<Option<string>>>,
    fetcher: Option<string -> Promised<string>>,
    filterer: Option<string -> bool>)

  /** What the browser supplies: `document.styleSheets`, `location.origin`,
      the `XMLSerializer` output for the node, the order in which a batch of
      fetches settles, and `encodeURIComponent`. */
  datatype Host = Host(
    styleSheets: seq<StyleSheet>,
    origin: string,
    serialized: string,
    settleOrder: nat -> seq<nat>,
    encodeUriComponent: string -> string)

  ghost predicate ValidHost(host: Host) {
    IsScheduler(host.settleOrder)
  }

  /** `<style>${css}</style>${serialize(node)}`. */
  function StyledContent(css: string, markup: string): string {
    "<style>" + css + "</style>" + markup
  }

  /** The content that goes into the SVG, or the rejection that ends the call. */
  function FinalContent(host: Host, lib: Lib, options: Options): Promised<string>
    requires ValidHost(host)
  {
    match ApplyCssHook(CollectedCss(host.styleSheets, host.origin), options.css)
    case Rejected(e) => Rejected(e)
    case Resolved(css) =>
      InlineResources(StyledContent(css, host.serialized), lib, options.fetcher, options.filterer, host.settleOrder)
  }

  /** The promise `buildSvgDataURI` returns, as a value. */
  function BuildSvgDataUriSpec(host: Host, lib: Lib, options: Options): Promised<string>
    requires ValidHost(host)
  {
    match FinalContent(host, lib, options)
    case Rejected(e) => Rejected(e)
    case Resolved(content) =>
      Resolved(SvgDataUri(host.encodeUriComponent, SvgDocument(options.width, options.height, content)))
  }

  /** `buildSvgDataURI(node, options)` step by step. */
  method BuildSvgDataUri(host: Host, lib: Lib, options: Options) returns (r: Promised<string>)
    requires ValidHost(host)
    ensures r == BuildSvgDataUriSpec(host, lib, options)
  {
    var css := CollectCss(host.styleSheets, host.origin);
    if options.css.Some? {
      var result := options.css.value(css);
      if result.Rejected? {
        return Rejected(result.reason);
      }
      if result.value.Some? && Truthy(result.value.value) {
        css := result.value.value;
      }
    }
    var content := "<style>" + css + "</style>" + host.serialized;
    if options.fetcher.Some? {
      var resources := lib.imageUrlsFromHtml(content);
      resources := resources + lib.urlsFromCss(content);
      var uniqueResources := Dedup(resources);
      if options.filterer.Some? {
        uniqueResources := Filter(options.filterer.value, uniqueResources);
      }
      assert IsCompletionOrder(host.settleOrder(|uniqueResources|), |uniqueResources|);
      var base64Resources := UseFetcher(uniqueResources, options.fetcher.value, lib, host.settleOrder(|uniqueResources|));
      if base64Resources.Rejected? {
        return Rejected(base64Resources.reason);
      }
      content := SubstituteAll(content, base64Resources.value);
    }
    var svg := SvgDocument(options.width, options.height, content);
    r := Resolved(SvgDataUri(host.encodeUriComponent, svg));
  }

  /** A successful call yields the data-URI prefix followed by the encoding
      of an SVG that is sized as asked on both elements and holds the final
      content verbatim. */
  lemma OutputShape(host: Host, lib: Lib, options: Options)
    requires ValidHost(host)
    requires BuildSvgDataUriSpec(host, lib, options).Resolved?
    ensures var uri := BuildSvgDataUriSpec(host, lib, options).value;
      var svg := SvgDocument(options.width, options.height, FinalContent(host, lib, options).value);
      && StartsWith(uri, DataUriPrefix)
      && uri[|DataUriPrefix|..] == host.encodeUriComponent(svg)
      && ParseSvg(svg) == Some(SvgParts(options.width, options.height, FinalContent(host, lib, options).value))
  {
    SvgDocumentParses(options.width, options.height, FinalContent(host, lib, options).value);
  }

  /** Without a fetcher the SVG holds exactly the `<style>` element with the
      (possibly replaced) css, followed by the serialized node. */
  lemma WithoutFetcherContentIsVerbatim(host: Host, lib: Lib, options: Options)
    requires ValidHost(host) && options.fetcher.None?
    requires ApplyCssHook(CollectedCss(host.styleSheets, host.origin), options.css).Resolved?
    ensures var css := ApplyCssHook(CollectedCss(host.styleSheets, host.origin), options.css).value;
      var svg := SvgDocument(options.width, options.height, "<style>" + css + "</style>" + host.serialized);
      && BuildSvgDataUriSpec(host, lib, options) == Resolved(DataUriPrefix + host.encodeUriComponent(svg))
      && ParseSvg(svg) == Some(SvgParts(options.width, options.height, "<style>" + css + "</style>" + host.serialized))
  {
    var css := ApplyCssHook(CollectedCss(host.styleSheets, host.origin), options.css).value;
    SvgDocumentParses(options.width, options.height, StyledContent(css, host.serialized));
  }

  /** The call rejects exactly when the css hook rejects, or when it does
      not and the fetch of some selected reference rejects. */
  lemma BuildRejectsIff(host: Host, lib: Lib, options: Options)
    requires ValidHost(host)
    ensures BuildSvgDataUriSpec(host, lib, options).Rejected? <==>
      || (options.css.Some? && options.css.value(CollectedCss(host.styleSheets, host.origin)).Rejected?)
      || (var hooked := ApplyCssHook(CollectedCss(host.styleSheets, host.origin), options.css);
          && hooked.Resolved?
          && options.fetcher.Some?
          && exists u :: u in SelectedResources(lib, StyledContent(hooked.value, host.serialized), options.filterer)
                        && options.fetcher.value(FetchKey(lib, u)).Rejected?)
  {
    var hooked := ApplyCssHook(CollectedCss(host.styleSheets, host.origin), options.css);
    if hooked.Resolved? {
      InlineRejectsIff(StyledContent(hooked.value, host.serialized), lib, options.fetcher, options.filterer, host.settleOrder);
    }
  }
}

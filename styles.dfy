/** The style collector of `buildSvgDataURI`: the rule texts of every
    stylesheet the page may read, in order, and the optional caller hook
    that may replace them. */
module Styles {
  import opened Wrappers
  import opened Text
  import opened Sequences

  /** A stylesheet of the host document: its `href` (None where the host
      gives null, as for an inline `<style>`) and the `cssText` of each rule. */
  datatype StyleSheet = StyleSheet(href: Option<string>, cssRules: seq<string>)

  /** `!styleSheet.href || styleSheet.href.startsWith(location.origin)`:
      an inline sheet, a sheet with an empty href, or one served from the
      page's own origin. */
  predicate Readable(sheet: StyleSheet, origin: string) {
    match sheet.href
    case None => true
    case Some(href) => href == "" || StartsWith(href, origin)
  }

  function ReadableAt(origin: string): StyleSheet -> bool {
    sheet => Readable(sheet, origin)
  }

  /** The rule texts of the sheets, sheet after sheet. */
  function RuleTexts(sheets: seq<StyleSheet>): seq<string> {
    if sheets == [] then [] else sheets[0].cssRules + RuleTexts(sheets[1..])
  }

  /** The css the loop collects: the rule texts of the readable sheets,
      in sheet order and, within a sheet, in rule order. */
  function CollectedCss(sheets: seq<StyleSheet>, origin: string): string {
    Concat(RuleTexts(Filter(ReadableAt(origin), sheets)))
  }

  lemma {:induction false} RuleTextsAppend(a: seq<StyleSheet>, b: seq<StyleSheet>)
    ensures RuleTexts(a + b) == RuleTexts(a) + RuleTexts(b)
  {
    if a != [] {
      assert (a + b)[1..] == a[1..] + b;
      RuleTextsAppend(a[1..], b);
    } else {
      assert a + b == b;
    }
  }

  lemma CollectedCssAppend(a: seq<StyleSheet>, b: seq<StyleSheet>, origin: string)
    ensures CollectedCss(a + b, origin) == CollectedCss(a, origin) + CollectedCss(b, origin)
  {
    var p := ReadableAt(origin);
    FilterAppend(p, a, b);
    RuleTextsAppend(Filter(p, a), Filter(p, b));
    ConcatAppend(RuleTexts(Filter(p, a)), RuleTexts(Filter(p, b)));
  }

  /** What one sheet adds to the css, wherever it stands: all its rule texts
      when it is readable, nothing when it is cross-origin. */
  lemma SheetContribution(before: seq<StyleSheet>, sheet: StyleSheet, after: seq<StyleSheet>, origin: string)
    ensures CollectedCss(before + [sheet] + after, origin)
      == CollectedCss(before, origin)
         + (if Readable(sheet, origin) then Concat(sheet.cssRules) else "")
         + CollectedCss(after, origin)
  {
    CollectedCssAppend(before + [sheet], after, origin);
    CollectedCssAppend(before, [sheet], origin);
    var p := ReadableAt(origin);
    assert [sheet][1..] == [];
    assert Filter(p, [sheet]) == if Readable(sheet, origin) then [sheet] else [];
    assert RuleTexts([sheet]) == sheet.cssRules + RuleTexts([]);
    assert sheet.cssRules + [] == sheet.cssRules;
  }

  lemma {:induction false} ConcatSnoc(ss: seq<string>, s: string)
    ensures Concat(ss + [s]) == Concat(ss) + s
  {
    ConcatAppend(ss, [s]);
    assert [s][1..] == [];
  }

  /** The nested loop over `document.styleSheets` and each sheet's
      `cssRules`, appending each `cssText` to `css`. */
  method CollectCss(sheets: seq<StyleSheet>, origin: string) returns (css: string)
    ensures css == CollectedCss(sheets, origin)
  {
    css := "";
    for i := 0 to |sheets|
      invariant css == CollectedCss(sheets[..i], origin)
    {
      var sheet := sheets[i];
      if sheet.href.None? || sheet.href.value == "" || StartsWith(sheet.href.value, origin) {
        for j := 0 to |sheet.cssRules|
          invariant css == CollectedCss(sheets[..i], origin) + Concat(sheet.cssRules[..j])
        {
          assert sheet.cssRules[..j + 1] == sheet.cssRules[..j] + [sheet.cssRules[j]];
          ConcatSnoc(sheet.cssRules[..j], sheet.cssRules[j]);
          css := css + sheet.cssRules[j];
        }
        assert sheet.cssRules[..|sheet.cssRules|] == sheet.cssRules;
      }
      assert sheets[..i + 1] == sheets[..i] + [sheet] + [];
      SheetContribution(sheets[..i], sheet, [], origin);
    }
    assert sheets[..|sheets|] == sheets;
  }

  /** A JavaScript string is truthy exactly when it is not empty. */
  predicate Truthy(s: string) {
    s != ""
  }

  /** `if (typeof options.css === 'function') { let result = await
      options.css(css); if (result) css = result }`. The hook settles with a
      string or with nothing (None), or rejects. */
  function ApplyCssHook(css: string, hook: Option<string -> Promised<Option<string>>>): (r: Promised<string>)
    // a rejection of the hook is the only failure, and it is passed on
    ensures r.Rejected? <==> hook.Some? && hook.value(css).Rejected?
    ensures r.Rejected? ==> r == Rejected(hook.value(css).reason)
    // without a hook the collected css stands
    ensures hook.None? ==> r == Resolved(css)
    // a truthy result replaces the css
    ensures hook.Some? && hook.value(css).Resolved? && hook.value(css).value.Some?
            && Truthy(hook.value(css).value.value)
            ==> r == Resolved(hook.value(css).value.value)
    // nothing and the empty string leave it as it was
    ensures hook.Some? && hook.value(css).Resolved?
            && (hook.value(css).value.None? || !Truthy(hook.value(css).value.value))
            ==> r == Resolved(css)
    // so non-empty css never becomes empty
    ensures r.Resolved? && css != "" ==> r.value != ""
  {
    match hook
    case None => Resolved(css)
    case Some(f) =>
      match f(css)
      case Rejected(e) => Rejected(e)
      case Resolved(result) =>
        if result.Some? && Truthy(result.value) then Resolved(result.value) else Resolved(css)
  }
}

/** The SVG wrapper and the data-URI prefix of `buildSvgDataURI`. */
module Svg {
  import opened Wrappers
  import opened Text
  import opened Sequences

  const SvgHead := "<svg xmlns='http://www.w3.org/2000/svg' width='"
  const HeightAttr := " height='"
  const FrameHead := "><foreignObject x='0' y='0' width='"
  const SvgTail := "</foreignObject></svg>"
  const DataUriPrefix := "data:image/svg+xml;charset=utf-8,"

  /** The SVG template: `width` and `height` on the `<svg>` root and again
      on the `<foreignObject>`, whose body is `content`. */
  function SvgDocument(width: int, height: int, content: string): string {
    SvgHead + DecimalString(width) + "'" + HeightAttr + DecimalString(height) + "'"
      + FrameHead + DecimalString(width) + "'" + HeightAttr + DecimalString(height) + "'>"
      + content + SvgTail
  }

  /** The data URI: the fixed prefix, then what `encodeURIComponent` gives for the SVG. */
  function SvgDataUri(encodeUriComponent: string -> string, svg: string): (r: string)
    ensures StartsWith(r, DataUriPrefix)
    ensures r[|DataUriPrefix|..] == encodeUriComponent(svg)
  {
    DataUriPrefix + encodeUriComponent(svg)
  }

  datatype SvgParts = SvgParts(width: int, height: int, content: string)

  /** Splits `s` at its first `c`. */
  function CutAt(s: string, c: char): (r: Option<(string, string)>)
    ensures r.None? <==> c !in s
    ensures r.Some? ==> s == r.value.0 + [c] + r.value.1 && c !in r.value.0
  {
    if c !in s then None
    else
      var i := FirstIndex(s, c);
      assert s == s[..i] + [c] + s[i + 1..];
      Some((s[..i], s[i + 1..]))
  }

  /** Reads a document of the template's shape back into its width, height
      and content; None for anything else, including a document whose
      `<foreignObject>` is not sized like its root. */
  function ParseSvg(svg: string): Option<SvgParts> {
    if !StartsWith(svg, SvgHead) then None
    else match CutAt(svg[|SvgHead|..], '\'')
      case None => None
      case Some((w, afterWidth)) => ParseAfterWidth(w, afterWidth)
  }

  function ParseAfterWidth(w: string, afterWidth: string): Option<SvgParts> {
    if !StartsWith(afterWidth, HeightAttr) then None
    else match CutAt(afterWidth[|HeightAttr|..], '\'')
      case None => None
      case Some((h, afterHeight)) => ParseFrame(w, h, afterHeight)
  }

  function ParseFrame(w: string, h: string, afterHeight: string): Option<SvgParts> {
    var frame := FrameHead + w + "'" + HeightAttr + h + "'>";
    if !StartsWith(afterHeight, frame) || |afterHeight| < |frame| + |SvgTail|
       || afterHeight[|afterHeight| - |SvgTail|..] != SvgTail then None
    else match (ParseDecimal(w), ParseDecimal(h))
      case (Some(width), Some(height)) =>
        Some(SvgParts(width, height, afterHeight[|frame|..|afterHeight| - |SvgTail|]))
      case _ => None
  }

  lemma CutAtFirst(a: string, c: char, b: string)
    requires c !in a
    ensures CutAt(a + [c] + b, c) == Some((a, b))
  {
    var s := a + [c] + b;
    assert s[|a|] == c;
    var i := FirstIndex(s, c);
    assert s[..|a|] == a;
    FirstIndexUnique(s, c, |a|);
    assert s[i + 1..] == b;
  }

  lemma NoQuoteInDecimal(n: int)
    ensures '\'' !in DecimalString(n)
  {
  }

  lemma Regroup8(a: string, b: string, c: string, d: string, e: string, f: string, g: string, i: string)
    ensures a + b + c + d + e + f + g + i == a + (b + c + d + e + f + g + i)
  {
  }

  lemma Regroup4(a: string, b: string, c: string, d: string, e: string)
    ensures a + b + c + d + e == a + (b + c + d + e)
  {
  }

  lemma ParseFrameOf(width: int, height: int, content: string)
    ensures var w, h := DecimalString(width), DecimalString(height);
      ParseFrame(w, h, FrameHead + w + "'" + HeightAttr + h + "'>" + content + SvgTail)
        == Some(SvgParts(width, height, content))
  {
    var w, h := DecimalString(width), DecimalString(height);
    var frame := FrameHead + w + "'" + HeightAttr + h + "'>";
    var afterHeight := frame + content + SvgTail;
    assert afterHeight[..|frame|] == frame;
    assert afterHeight[|afterHeight| - |SvgTail|..] == SvgTail;
    assert afterHeight[|frame|..|afterHeight| - |SvgTail|] == content;
    DecimalRoundTrip(width);
    DecimalRoundTrip(height);
  }

  lemma ParseAfterWidthOf(width: int, h: string, afterHeight: string)
    requires '\'' !in h
    ensures ParseAfterWidth(DecimalString(width), HeightAttr + h + "'" + afterHeight)
      == ParseFrame(DecimalString(width), h, afterHeight)
  {
    var afterWidth := HeightAttr + h + "'" + afterHeight;
    assert afterWidth[..|HeightAttr|] == HeightAttr;
    assert afterWidth[|HeightAttr|..] == h + ['\''] + afterHeight;
    CutAtFirst(h, '\'', afterHeight);
  }

  lemma ParseSvgOf(w: string, afterWidth: string)
    requires '\'' !in w
    ensures ParseSvg(SvgHead + w + "'" + afterWidth) == ParseAfterWidth(w, afterWidth)
  {
    var svg := SvgHead + w + "'" + afterWidth;
    assert svg[..|SvgHead|] == SvgHead;
    assert svg[|SvgHead|..] == w + ['\''] + afterWidth;
    CutAtFirst(w, '\'', afterWidth);
  }

  /** The template can be read back: the width and height on both elements
      are the given ones, and the content sits between the `foreignObject`
      tags exactly as it was given. */
  lemma SvgDocumentParses(width: int, height: int, content: string)
    ensures ParseSvg(SvgDocument(width, height, content)) == Some(SvgParts(width, height, content))
  {
    var w, h := DecimalString(width), DecimalString(height);
    var afterHeight := FrameHead + w + "'" + HeightAttr + h + "'>" + content + SvgTail;
    var afterWidth := HeightAttr + h + "'" + afterHeight;
    var root := SvgHead + w + "'";
    Regroup8(root + HeightAttr + h + "'", FrameHead, w, "'", HeightAttr, h, "'>", content);
    Regroup4(root, HeightAttr, h, "'", afterHeight);
    assert SvgDocument(width, height, content) == SvgHead + w + "'" + afterWidth;
    NoQuoteInDecimal(width);
    NoQuoteInDecimal(height);
    ParseSvgOf(w, afterWidth);
    ParseAfterWidthOf(width, h, afterHeight);
    ParseFrameOf(width, height, content);
  }
}

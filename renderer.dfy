/** `updateMessage` (script.js:136-226) as string processing: which children
    the answer bubble receives, in which order, and what text is left for
    the formula split once a chart or a drawing has been taken out. */
module Renderer {
  import opened Wrappers
  import opened Chars
  import opened Json
  import opened Fences
  import opened Formulas

  /** One child of the bubble: the plot container (script.js:150-152), the
      SVG container (script.js:171-174) or the text block (script.js:180-217).
      A plot container whose chart is `None` stays empty: the parsed value was
      `null`, and reading `graphData.data` threw right after the container
      was appended. */
  datatype Region =
    | Plot(chart: Option<Chart>)
    | Svg(code: string)
    | TextBlock(parts: seq<Part>)

  /** `JSON.parse`: `None` when it throws. */
  type Parser = string -> Option<JsonValue>

  /** The two mode tests, script.js:147 and script.js:169. */
  predicate ChartMode(mode: string) { mode == "graph" }
  predicate DrawingMode(mode: string) { mode == "draw" || mode == "chat" }

  /** `s` with the span `m` taken out, every other character kept in order. */
  function Without(s: string, m: Span): string
    requires m.start <= m.end <= |s|
  {
    s[..m.start] + s[m.end..]
  }

  /** The chart branch runs to completion: graph mode, a chart block, a body
      that parses to something other than `null`. Only then is the block
      removed from the text (script.js:163). */
  predicate ChartDrawn(raw: string, mode: string, parse: Parser) {
    && ChartMode(mode)
    && JsonMatch(raw).Some?
    && var v := parse(Capture(raw, JsonMatch(raw).value)); v.Some? && !v.value.JNull?
  }

  /** The plot container, if one is appended: whenever the body parses. */
  function ChartRegions(raw: string, mode: string, parse: Parser): seq<Region> {
    if ChartMode(mode) && JsonMatch(raw).Some? then
      match parse(Capture(raw, JsonMatch(raw).value))
      case None => []
      case Some(v) => [Plot(ResolveChart(v))]
    else []
  }

  /** The SVG container, if one is appended. */
  function SvgRegions(raw: string, mode: string): seq<Region> {
    if DrawingMode(mode) && SvgMatch(raw).Some? then [Svg(SvgCode(raw, SvgMatch(raw).value))] else []
  }

  /** The text left for the text block. The two branches exclude each other
      by mode, so at most one span is ever removed. */
  function Remainder(raw: string, mode: string, parse: Parser): string {
    if ChartDrawn(raw, mode, parse) then Without(raw, JsonMatch(raw).value)
    else if DrawingMode(mode) && SvgMatch(raw).Some? then Without(raw, SvgMatch(raw).value)
    else raw
  }

  /** The text block, present unless the text left is empty or whitespace. */
  function TextRegions(rest: string): seq<Region> {
    if AllWs(rest) then [] else [TextBlock(Split(rest, 0))]
  }

  /** The children of the bubble, in the order they are appended. */
  function Render(raw: string, mode: string, parse: Parser): seq<Region> {
    ChartRegions(raw, mode, parse) + SvgRegions(raw, mode) + TextRegions(Remainder(raw, mode, parse))
  }

  /** script.js:141-217, with the DOM replaced by the list of children. The
      text shrinks by `replace` as in the source; the lemmas of `Fences` tie
      each `replace` to removing exactly the matched span. */
  method UpdateMessage(raw: string, mode: string, parse: Parser) returns (regions: seq<Region>)
    ensures regions == Render(raw, mode, parse)
  {
    regions := [];
    var contentToShow := raw;
    var jsonMatch := JsonMatch(raw);
    var svgMatch := SvgMatch(raw);

    if mode == "graph" && jsonMatch.Some? {
      var graphData := parse(Capture(raw, jsonMatch.value));
      if graphData.Some? {
        regions := regions + [Plot(ResolveChart(graphData.value))];
        if !graphData.value.JNull? {
          RemoveJsonSpan(raw);
          contentToShow := ReplaceFirst(contentToShow, Whole(raw, jsonMatch.value));
        }
      }
    }
    assert regions == ChartRegions(raw, mode, parse);

    if (mode == "draw" || mode == "chat") && svgMatch.Some? {
      regions := regions + [Svg(SvgCode(raw, svgMatch.value))];
      RemoveSvgSpan(raw);
      contentToShow := ReplaceFirst(contentToShow, Whole(raw, svgMatch.value));
    }
    assert regions == ChartRegions(raw, mode, parse) + SvgRegions(raw, mode);
    assert contentToShow == Remainder(raw, mode, parse);

    if Trim(contentToShow) != "" {
      var parts := SplitFormulas(contentToShow);
      regions := regions + [TextBlock(parts)];
      assert TextRegions(contentToShow) == [TextBlock(parts)];
    } else {
      assert TextRegions(contentToShow) == [];
      assert regions + [] == regions;
    }
  }

  /** Where a child comes in the bubble. */
  function Rank(r: Region): nat {
    match r
    case Plot(_) => 0
    case Svg(_) => 1
    case TextBlock(_) => 2
  }

  /** The plot comes before the drawing, which comes before the text; as the
      ranks strictly increase, there is at most one child of each kind. */
  lemma RegionOrder(raw: string, mode: string, parse: Parser)
    ensures var r := Render(raw, mode, parse);
      forall k, l :: 0 <= k < l < |r| ==> Rank(r[k]) < Rank(r[l])
  {
    var c := ChartRegions(raw, mode, parse);
    var d := SvgRegions(raw, mode);
    var t := TextRegions(Remainder(raw, mode, parse));
    var r := Render(raw, mode, parse);
    forall k, l | 0 <= k < l < |r|
      ensures Rank(r[k]) < Rank(r[l])
    {
      assert r == c + d + t;
      assert k < |c| ==> r[k] == c[k];
      assert |c| <= k < |c| + |d| ==> r[k] == d[k - |c|];
      assert |c| + |d| <= l ==> r[l] == t[l - |c| - |d|];
      assert |c| <= l < |c| + |d| ==> r[l] == d[l - |c|];
    }
  }

  /** A plot appears only in graph mode and a drawing only in draw or chat
      mode, so a bubble never holds both; in any other mode the reply is
      shown as text, untouched. */
  lemma ModeGating(raw: string, mode: string, parse: Parser)
    ensures var r := Render(raw, mode, parse);
      && (forall k :: 0 <= k < |r| && r[k].Plot? ==> ChartMode(mode))
      && (forall k :: 0 <= k < |r| && r[k].Svg? ==> DrawingMode(mode))
      && (forall k, l :: 0 <= k < |r| && 0 <= l < |r| && r[k].Plot? ==> !r[l].Svg?)
    ensures !ChartMode(mode) && !DrawingMode(mode) ==>
      Render(raw, mode, parse) == TextRegions(raw)
  {
    var c := ChartRegions(raw, mode, parse);
    var d := SvgRegions(raw, mode);
    var t := TextRegions(Remainder(raw, mode, parse));
    var r := Render(raw, mode, parse);
    assert r == c + d + t;
    forall k | 0 <= k < |r|
      ensures (r[k].Plot? ==> ChartMode(mode)) && (r[k].Svg? ==> DrawingMode(mode))
    {
      if k < |c| {
        assert r[k] == c[k];
      } else if k < |c| + |d| {
        assert r[k] == d[k - |c|];
      } else {
        assert r[k] == t[k - |c| - |d|];
      }
    }
    if !ChartMode(mode) && !DrawingMode(mode) {
      assert c == [] && d == [];
    }
  }

  /** The bubble ends with a text block exactly when the text left is not
      blank; the block's parts are its formula split, and rendering them
      reproduces that text. */
  lemma TextBlockIffNotBlank(raw: string, mode: string, parse: Parser)
    ensures var r := Render(raw, mode, parse); var rest := Remainder(raw, mode, parse);
      && ((exists k :: 0 <= k < |r| && r[k].TextBlock?) <==> !AllWs(rest))
      && (!AllWs(rest) ==>
            r[|r| - 1] == TextBlock(Split(rest, 0)) && Concat(Split(rest, 0)) == rest && WellFormed(Split(rest, 0)))
  {
    var c := ChartRegions(raw, mode, parse);
    var d := SvgRegions(raw, mode);
    var rest := Remainder(raw, mode, parse);
    var t := TextRegions(rest);
    var r := Render(raw, mode, parse);
    assert r == c + d + t;
    forall k | 0 <= k < |c| + |d|
      ensures !r[k].TextBlock?
    {
      if k < |c| {
        assert r[k] == c[k];
      } else {
        assert r[k] == d[k - |c|];
      }
    }
    if !AllWs(rest) {
      assert r[|r| - 1] == t[0];
      SplitRoundTrip(rest, 0);
      SplitWellFormed(rest, 0);
    }
  }

  /** A chart that is drawn takes its block out of the text: what is left
      is the reply without the whole fenced block, every other character
      kept in order, shorter by exactly the block's length. */
  lemma ChartRemoval(raw: string, mode: string, parse: Parser)
    requires ChartDrawn(raw, mode, parse)
    ensures var m := JsonMatch(raw).value; var rest := Remainder(raw, mode, parse);
      && rest == raw[..m.start] + raw[m.end..]
      && |rest| == |raw| - |Whole(raw, m)|
      && Whole(raw, m)[..|Tick + "json"|] == Tick + "json"
      && Whole(raw, m)[|Whole(raw, m)| - |Tick|..] == Tick
      && Render(raw, mode, parse)[0] == Plot(ResolveChart(parse(Capture(raw, m)).value))
      && ResolveChart(parse(Capture(raw, m)).value).Some?
  {
    var m := JsonMatch(raw).value;
    var w := Whole(raw, m);
    assert w[..|Tick + "json"|] == raw[m.start..m.start + |Tick + "json"|];
    assert w[|w| - |Tick|..] == raw[m.end - |Tick|..m.end];
  }

  /** A chart block whose body does not parse changes nothing: no plot
      container, and the text is the reply as it came (or, in no mode that
      draws, the reply with the drawing taken out). A body that parses to
      `null` leaves an empty plot container and the text untouched. */
  lemma ChartParseFailure(raw: string, mode: string, parse: Parser)
    requires ChartMode(mode) && JsonMatch(raw).Some?
    ensures var v := parse(Capture(raw, JsonMatch(raw).value));
      && (v.None? ==> Render(raw, mode, parse) == TextRegions(raw))
      && (v.Some? && v.value.JNull? ==> Render(raw, mode, parse) == [Plot(None)] + TextRegions(raw))
  {
  }

  /** In draw or chat mode a drawing is mounted whenever the reply holds
      one: a fenced block wins over an inline tag, and the whole match is
      taken out of the text. */
  lemma DrawingRemoval(raw: string, mode: string, parse: Parser)
    requires DrawingMode(mode) && SvgMatch(raw).Some?
    ensures var m := SvgMatch(raw).value;
      && Render(raw, mode, parse) == [Svg(SvgCode(raw, m))] + TextRegions(raw[..m.start] + raw[m.end..])
      && ((exists f: Span :: IsFenceMatch(raw, "svg", f)) ==> IsFenceMatch(raw, "svg", m))
      && |raw[..m.start] + raw[m.end..]| == |raw| - |Whole(raw, m)|
  {
  }
}

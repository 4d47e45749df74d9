/** The three searches of `updateMessage` (script.js:144-145):
      /```json\s*([\s\S]*?)\s*```/      the chart block,
      /```svg\s*([\s\S]*?)\s*```/       the drawing block,
      /(<svg[\s\S]*?<\/svg>)/           the inline drawing fallback.
    Each is stated twice: declaratively, as the match a backtracking regular
    expression engine reports (leftmost start, greedy `\s*`, lazy capture),
    and as index functions over the reply that compute it. */
module Fences {
  import opened Wrappers
  import opened Chars

  /** One match, as indices into the searched string: `match[0]` is
      `s[start..end]` and `match[1]` is `s[capStart..capEnd]`. */
  datatype Span = Span(start: nat, capStart: nat, capEnd: nat, end: nat)

  const Tick: string := "```"

  /** `match[0]`. */
  function Whole(s: string, m: Span): string
    requires m.start <= m.end <= |s|
  {
    s[m.start..m.end]
  }

  /** `match[1]`. */
  function Capture(s: string, m: Span): string
    requires m.capStart <= m.capEnd <= |s|
  {
    s[m.capStart..m.capEnd]
  }

  /** /```TAG\s*([\s\S]*?)\s*```/ matches at `m.start` and reports `m`:
      the opener, a maximal whitespace run (greedy `\s*`), the capture up to
      the first closing fence after it (lazy), with the capture's trailing
      whitespace handed to the second `\s*`. */
  ghost predicate IsFenceMatch(s: string, tag: string, m: Span) {
    && m.start + |Tick + tag| <= m.capStart <= m.capEnd
    && m.capEnd + |Tick| <= m.end <= |s|
    && StartsAt(s, m.start, Tick + tag)
    && AllWs(s[m.start + |Tick + tag|..m.capStart])
    && !IsWs(s[m.capStart])
    && AllWs(s[m.capEnd..m.end - |Tick|])
    && StartsAt(s, m.end - |Tick|, Tick)
    && (forall q :: m.capStart <= q < m.end - |Tick| ==> !StartsAt(s, q, Tick))
    && (m.capStart < m.capEnd ==> !IsWs(s[m.capEnd - 1]))
  }

  /** /(<svg[\s\S]*?<\/svg>)/ matches at `m.start`: the opening tag, then
      the first closing tag after it; group 1 is the whole match. */
  ghost predicate IsInlineSvgMatch(s: string, m: Span) {
    && m.capStart == m.start && m.capEnd == m.end
    && m.start + |"<svg"| + |"</svg>"| <= m.end <= |s|
    && StartsAt(s, m.start, "<svg")
    && StartsAt(s, m.end - |"</svg>"|, "</svg>")
    && (forall q :: m.start + |"<svg"| <= q < m.end - |"</svg>"| ==> !StartsAt(s, q, "</svg>"))
  }

  /** A greedy `\s*` from `i` can only stop at `SkipWs(s, i)`. */
  lemma {:induction false} SkipWsUnique(s: string, i: nat, q: nat)
    requires i <= q < |s| && AllWs(s[i..q]) && !IsWs(s[q])
    ensures q == SkipWs(s, i)
    decreases q - i
  {
    if i < q {
      assert IsWs(s[i]) by {
        assert s[i..q][0] == s[i];
      }
      assert s[i + 1..q] == s[i..q][1..];
      SkipWsUnique(s, i + 1, q);
    }
  }

  /** The span `FenceAt` builds from the opener at `i`, the end `p` of the
      whitespace after it and the first closing fence `k` after `p`. */
  lemma FenceSpanMatches(s: string, tag: string, i: nat, p: nat, k: nat)
    requires StartsAt(s, i, Tick + tag)
    requires p == SkipWs(s, i + |Tick + tag|)
    requires Find(s, Tick, p) == Some(k)
    ensures IsFenceMatch(s, tag, Span(i, p, TrimEndIndex(s, p, k), k + |Tick|))
  {
    var c := TrimEndIndex(s, p, k);
    var m := Span(i, p, c, k + |Tick|);
    assert m.end - |Tick| == k;
    assert p < |s|;
  }

  /** No match starts at an opener whose whitespace run has no closing
      fence after it. */
  lemma NoFenceWithoutClose(s: string, tag: string, i: nat, m: Span)
    requires StartsAt(s, i, Tick + tag)
    requires Find(s, Tick, SkipWs(s, i + |Tick + tag|)).None?
    requires m.start == i
    ensures !IsFenceMatch(s, tag, m)
  {
    if IsFenceMatch(s, tag, m) {
      SkipWsUnique(s, i + |Tick + tag|, m.capStart);
      assert false;
    }
  }

  /** The fenced pattern tried at index `i` only. */
  function FenceAt(s: string, tag: string, i: nat): (r: Option<Span>)
    ensures r.Some? ==> r.value.start == i && IsFenceMatch(s, tag, r.value)
    ensures r.None? ==> forall m: Span :: m.start == i ==> !IsFenceMatch(s, tag, m)
  {
    if !StartsAt(s, i, Tick + tag) then None
    else
      var p := SkipWs(s, i + |Tick + tag|);
      match Find(s, Tick, p)
      case None =>
        assert forall m: Span :: m.start == i ==> !IsFenceMatch(s, tag, m) by {
          forall m: Span | m.start == i ensures !IsFenceMatch(s, tag, m) {
            NoFenceWithoutClose(s, tag, i, m);
          }
        }
        None
      case Some(k) =>
        FenceSpanMatches(s, tag, i, p, k);
        Some(Span(i, p, TrimEndIndex(s, p, k), k + |Tick|))
  }

  /** The leftmost match at or after `from`: what `String.prototype.match`
      returns for the fenced pattern. */
  function FirstFence(s: string, tag: string, from: nat): (r: Option<Span>)
    ensures r.Some? ==> from <= r.value.start && IsFenceMatch(s, tag, r.value)
    ensures r.Some? ==> forall m: Span :: from <= m.start < r.value.start ==> !IsFenceMatch(s, tag, m)
    ensures r.None? ==> forall m: Span :: from <= m.start ==> !IsFenceMatch(s, tag, m)
    decreases |s| - from
  {
    if from + |Tick + tag| > |s| then None
    else match FenceAt(s, tag, from)
      case Some(m) => Some(m)
      case None => FirstFence(s, tag, from + 1)
  }

  /** The inline pattern tried at index `i` only. */
  function InlineSvgAt(s: string, i: nat): (r: Option<Span>)
    ensures r.Some? ==> r.value.start == i && IsInlineSvgMatch(s, r.value)
    ensures r.None? ==> forall m: Span :: m.start == i ==> !IsInlineSvgMatch(s, m)
  {
    if !StartsAt(s, i, "<svg") then None
    else match Find(s, "</svg>", i + |"<svg"|)
      case None => None
      case Some(k) => Some(Span(i, i, k + |"</svg>"|, k + |"</svg>"|))
  }

  /** The leftmost inline match at or after `from`. */
  function FirstInlineSvg(s: string, from: nat): (r: Option<Span>)
    ensures r.Some? ==> from <= r.value.start && IsInlineSvgMatch(s, r.value)
    ensures r.Some? ==> forall m: Span :: from <= m.start < r.value.start ==> !IsInlineSvgMatch(s, m)
    ensures r.None? ==> forall m: Span :: from <= m.start ==> !IsInlineSvgMatch(s, m)
    decreases |s| - from
  {
    if from + |"<svg"| > |s| then None
    else match InlineSvgAt(s, from)
      case Some(m) => Some(m)
      case None => FirstInlineSvg(s, from + 1)
  }

  /** `rawContent.match(/```json\s*([\s\S]*?)\s*```/)` (script.js:144):
      the leftmost match, or `None` when the pattern matches nowhere. */
  function JsonMatch(s: string): (r: Option<Span>)
    ensures r.Some? ==> IsFenceMatch(s, "json", r.value)
    ensures r.Some? ==> forall m: Span :: m.start < r.value.start ==> !IsFenceMatch(s, "json", m)
    ensures r.None? ==> forall m: Span :: !IsFenceMatch(s, "json", m)
  {
    FirstFence(s, "json", 0)
  }

  /** script.js:145: the leftmost `svg` fence when there is one anywhere in
      the reply, and only otherwise the leftmost inline tag. */
  function SvgMatch(s: string): (r: Option<Span>)
    ensures forall m: Span :: IsFenceMatch(s, "svg", m) ==>
              r.Some? && IsFenceMatch(s, "svg", r.value) && r.value.start <= m.start
    ensures r.Some? && !IsFenceMatch(s, "svg", r.value) ==>
              IsInlineSvgMatch(s, r.value) && forall m: Span :: !IsFenceMatch(s, "svg", m)
    ensures r.Some? && IsInlineSvgMatch(s, r.value) ==>
              forall m: Span :: m.start < r.value.start ==> !IsInlineSvgMatch(s, m)
    ensures r.None? <==> forall m: Span :: !IsFenceMatch(s, "svg", m) && !IsInlineSvgMatch(s, m)
  {
    match FirstFence(s, "svg", 0)
    case Some(m) =>
      assert !IsInlineSvgMatch(s, m) by {
        assert s[m.start..m.start + |Tick + "svg"|][0] == '`';
      }
      Some(m)
    case None => FirstInlineSvg(s, 0)
  }

  /** `svgMatch[1] || svgMatch[0]` (script.js:170): the capture, or the
      whole match when the capture is the empty string. */
  function SvgCode(s: string, m: Span): string
    requires m.start <= m.end <= |s| && m.capStart <= m.capEnd <= |s|
  {
    if Capture(s, m) != "" then Capture(s, m) else Whole(s, m)
  }

  /** For a fenced drawing, the mounted markup is the block's body without
      surrounding whitespace, or the whole fence when the body is empty. */
  lemma FenceSvgCode(s: string, m: Span)
    requires IsFenceMatch(s, "svg", m)
    ensures var code := SvgCode(s, m);
      && (Capture(s, m) != "" ==> code == Capture(s, m) && !IsWs(code[0]) && !IsWs(code[|code| - 1]))
      && (Capture(s, m) == "" ==> code == Whole(s, m) && code[..|Tick + "svg"|] == Tick + "svg"
                                  && code[|code| - |Tick|..] == Tick)
  {
    var code := SvgCode(s, m);
    if Capture(s, m) == "" {
      assert code[..|Tick + "svg"|] == s[m.start..m.start + |Tick + "svg"|];
      assert code[|code| - |Tick|..] == s[m.end - |Tick|..m.end];
    }
  }

  /** For an inline drawing, the mounted markup is the whole tag span, the
      opening `<svg` and closing `</svg>` included. */
  lemma InlineSvgCode(s: string, m: Span)
    requires IsInlineSvgMatch(s, m)
    ensures var code := SvgCode(s, m);
      code == Whole(s, m) && code[..|"<svg"|] == "<svg" && code[|code| - |"</svg>"|..] == "</svg>"
  {
    var code := SvgCode(s, m);
    assert code == Whole(s, m);
    assert code[..|"<svg"|] == s[m.start..m.start + |"<svg"|];
    assert code[|code| - |"</svg>"|..] == s[m.end - |"</svg>"|..m.end];
  }

  /** A closing fence at or after `a` lies beyond the whitespace run that
      starts at `a`: a backtick is not whitespace. */
  lemma TickAfterWsRun(s: string, a: nat, q: nat)
    requires a <= q && StartsAt(s, q, Tick)
    ensures SkipWs(s, a) <= q
  {
    var r := SkipWs(s, a);
    assert s[q] == '`' by {
      assert s[q..q + |Tick|][0] == s[q];
    }
    forall k | a <= k < r
      ensures IsWs(s[k])
    {
      assert s[a..r][k - a] == s[k];
    }
  }

  /** An opener before the leftmost match would have matched: the closing
      fence of that match lies beyond the opener's whitespace run. */
  lemma NoOpenerBeforeMatch(s: string, tag: string, q: nat, m: Span)
    requires IsFenceMatch(s, tag, m) && q < m.start && FenceAt(s, tag, q).None?
    ensures !StartsAt(s, q, Tick + tag)
  {
    TickAfterWsRun(s, q + |Tick + tag|, m.end - |Tick|);
  }

  /** The fenced pattern only ever matches at the first occurrence of its
      opener. */
  lemma FenceStartsAtFirstOpener(s: string, tag: string)
    requires FirstFence(s, tag, 0).Some?
    ensures Find(s, Tick + tag, 0) == Some(FirstFence(s, tag, 0).value.start)
  {
    var m := FirstFence(s, tag, 0).value;
    forall q: nat | q < m.start
      ensures !StartsAt(s, q, Tick + tag)
    {
      NoOpenerBeforeMatch(s, tag, q, m);
    }
    FindIs(s, Tick + tag, 0, m.start);
  }

  /** An "<svg" before the leftmost inline match would have matched: that
      match's closing tag lies after it. */
  lemma NoTagBeforeMatch(s: string, q: nat, m: Span)
    requires IsInlineSvgMatch(s, m) && q < m.start && InlineSvgAt(s, q).None?
    ensures !StartsAt(s, q, "<svg")
  {
    assert q + |"<svg"| <= m.end - |"</svg>"|;
  }

  /** The inline pattern only ever matches at the first "<svg". */
  lemma InlineStartsAtFirstTag(s: string)
    requires FirstInlineSvg(s, 0).Some?
    ensures Find(s, "<svg", 0) == Some(FirstInlineSvg(s, 0).value.start)
  {
    var m := FirstInlineSvg(s, 0).value;
    forall q: nat | q < m.start
      ensures !StartsAt(s, q, "<svg")
    {
      NoTagBeforeMatch(s, q, m);
    }
    FindIs(s, "<svg", 0, m.start);
  }

  /** `String.prototype.replace` with a string pattern cuts the first
      occurrence; when the text to cut starts with an opener and sits at the
      first occurrence of that opener, that first occurrence is the one cut. */
  lemma ReplaceAtFirstOpener(s: string, o: string, w: string, i: nat)
    requires Find(s, o, 0) == Some(i)
    requires StartsAt(s, i, w) && |o| <= |w| && w[..|o|] == o
    ensures ReplaceFirst(s, w) == s[..i] + s[i + |w|..]
  {
    forall q: nat | q < i
      ensures !StartsAt(s, q, w)
    {
      NotStartsAtExtension(s, o, w, q);
    }
    FindIs(s, w, 0, i);
  }

  /** Removing the leftmost fenced match with `replace` deletes exactly its
      span. */
  lemma RemoveFenceSpan(s: string, tag: string)
    requires FirstFence(s, tag, 0).Some?
    ensures var m := FirstFence(s, tag, 0).value;
      ReplaceFirst(s, Whole(s, m)) == s[..m.start] + s[m.end..]
  {
    var m := FirstFence(s, tag, 0).value;
    FenceStartsAtFirstOpener(s, tag);
    var w := Whole(s, m);
    assert w[..|Tick + tag|] == s[m.start..m.start + |Tick + tag|];
    ReplaceAtFirstOpener(s, Tick + tag, w, m.start);
  }

  /** Removing the leftmost inline match with `replace` deletes exactly its
      span. */
  lemma RemoveInlineSpan(s: string)
    requires FirstInlineSvg(s, 0).Some?
    ensures var m := FirstInlineSvg(s, 0).value;
      ReplaceFirst(s, Whole(s, m)) == s[..m.start] + s[m.end..]
  {
    var m := FirstInlineSvg(s, 0).value;
    InlineStartsAtFirstTag(s);
    var w := Whole(s, m);
    assert w[..|"<svg"|] == s[m.start..m.start + |"<svg"|];
    ReplaceAtFirstOpener(s, "<svg", w, m.start);
  }

  /** Removing `match[0]` of the chart search with `replace` (script.js:163)
      deletes exactly the matched span. */
  lemma RemoveJsonSpan(s: string)
    requires JsonMatch(s).Some?
    ensures var m := JsonMatch(s).value;
      ReplaceFirst(s, Whole(s, m)) == s[..m.start] + s[m.end..]
  {
    RemoveFenceSpan(s, "json");
  }

  /** Removing `match[0]` of the drawing search with `replace`
      (script.js:175) deletes exactly the matched span, fenced or inline. */
  lemma RemoveSvgSpan(s: string)
    requires SvgMatch(s).Some?
    ensures var m := SvgMatch(s).value;
      ReplaceFirst(s, Whole(s, m)) == s[..m.start] + s[m.end..]
  {
    if FirstFence(s, "svg", 0).Some? {
      assert SvgMatch(s) == FirstFence(s, "svg", 0);
      RemoveFenceSpan(s, "svg");
    } else {
      assert SvgMatch(s) == FirstInlineSvg(s, 0);
      RemoveInlineSpan(s);
    }
  }
}

/** The formula split of `updateMessage` (script.js:184-215): a global scan
    with /\$(.*?)\$/g that cuts the remaining reply into plain-text runs and
    `$…$` formula runs, in order. */
module Formulas {
  import opened Wrappers
  import opened Chars

  /** One entry of the `parts` array: `{type: 'text' | 'latex', content}`. */
  datatype Part = Text(content: string) | Latex(content: string)

  /** The text each part's span receives (script.js:205-215): a text part
      as it is, a formula re-wrapped in `$`. */
  function Rendered(p: Part): string {
    match p
    case Text(t) => t
    case Latex(f) => "$" + f + "$"
  }

  /** The text of the whole text region: the parts' spans in order. */
  function Concat(parts: seq<Part>): string {
    if parts == [] then "" else Rendered(parts[0]) + Concat(parts[1..])
  }

  lemma ConcatAppend(a: seq<Part>, b: seq<Part>)
    ensures Concat(a + b) == Concat(a) + Concat(b)
    decreases |a|
  {
    if a == [] {
      assert a + b == b;
    } else {
      assert (a + b)[1..] == a[1..] + b;
      ConcatAppend(a[1..], b);
    }
  }

  /** No `$` and no line terminator in `s[a..b]`: what `(.*?)` may consume
      before the closing `$`. */
  ghost predicate Clean(s: string, a: nat, b: nat) {
    forall t :: a <= t < b && t < |s| ==> s[t] != '$' && !IsLineTerminator(s[t])
  }

  /** `(.*?)\$` started at index `k` can end with the `$` at index `j`. */
  ghost predicate ClosesAt(s: string, k: nat, j: nat) {
    k <= j < |s| && s[j] == '$' && Clean(s, k, j)
  }

  /** One formula match: `match.index` and the index of its closing `$`. */
  datatype Formula = Formula(open: nat, close: nat)

  /** /\$(.*?)\$/ matches at `i` and its closing `$` is at `j`. */
  ghost predicate FormulaAt(s: string, i: nat, j: nat) {
    i < |s| && s[i] == '$' && ClosesAt(s, i + 1, j)
  }

  /** A character that `.` consumes moves the start of the lazy scan on. */
  lemma CloseStep(s: string, k: nat)
    requires k < |s| && s[k] != '$' && !IsLineTerminator(s[k])
    ensures forall j :: ClosesAt(s, k, j) <==> ClosesAt(s, k + 1, j)
  {
  }

  /** `.` does not cross a line terminator. */
  lemma CloseBlocked(s: string, k: nat)
    requires k < |s| && IsLineTerminator(s[k])
    ensures forall j :: !ClosesAt(s, k, j)
  {
  }

  /** The lazy `(.*?)\$` from index `k`: the first `$`, provided no line
      terminator comes before it. */
  function CloseFrom(s: string, k: nat): (r: Option<nat>)
    ensures r.Some? ==> k <= r.value < |s| && s[r.value] == '$'
    decreases |s| - k
  {
    if k >= |s| then None
    else if s[k] == '$' then Some(k)
    else if IsLineTerminator(s[k]) then None
    else CloseFrom(s, k + 1)
  }

  /** `CloseFrom` is the lazy match: the `$` it finds can close, and when it
      finds none, no `$` can. */
  lemma {:induction false} CloseFromIsLazy(s: string, k: nat)
    ensures CloseFrom(s, k).Some? ==> ClosesAt(s, k, CloseFrom(s, k).value)
    ensures CloseFrom(s, k).None? ==> forall j :: !ClosesAt(s, k, j)
    decreases |s| - k
  {
    if k < |s| && s[k] != '$' {
      if IsLineTerminator(s[k]) {
        CloseBlocked(s, k);
      } else {
        CloseFromIsLazy(s, k + 1);
        CloseStep(s, k);
      }
    }
  }

  /** `latexRegex.exec(contentToShow)` with `lastIndex == from`: the
      leftmost formula at or after `from`. */
  function NextFormula(s: string, from: nat): (r: Option<Formula>)
    ensures r.Some? ==> from <= r.value.open < r.value.close < |s|
    ensures r.Some? ==> s[r.value.open] == '$' && s[r.value.close] == '$'
    decreases |s| - from
  {
    if from >= |s| then None
    else if s[from] == '$' && CloseFrom(s, from + 1).Some? then
      Some(Formula(from, CloseFrom(s, from + 1).value))
    else NextFormula(s, from + 1)
  }

  /** `NextFormula` finds the leftmost match of /\$(.*?)\$/ at or after
      `from`, and finds none exactly when there is none. */
  lemma {:induction false} NextFormulaIsLeftmost(s: string, from: nat)
    ensures NextFormula(s, from).Some? ==>
      var f := NextFormula(s, from).value;
      from <= f.open && FormulaAt(s, f.open, f.close) &&
      forall k, l :: from <= k < f.open ==> !FormulaAt(s, k, l)
    ensures NextFormula(s, from).None? ==> forall k, l :: from <= k ==> !FormulaAt(s, k, l)
    decreases |s| - from
  {
    if from < |s| {
      CloseFromIsLazy(s, from + 1);
      if !(s[from] == '$' && CloseFrom(s, from + 1).Some?) {
        NextFormulaIsLeftmost(s, from + 1);
      }
    }
  }

  /** What `NextFormula` finds is a match of /\$(.*?)\$/. */
  lemma {:induction false} NextFormulaMatches(s: string, from: nat)
    ensures NextFormula(s, from).Some? ==> FormulaAt(s, NextFormula(s, from).value.open, NextFormula(s, from).value.close)
    decreases |s| - from
  {
    if from < |s| {
      if s[from] == '$' && CloseFrom(s, from + 1).Some? {
        CloseFromIsLazy(s, from + 1);
      } else {
        NextFormulaMatches(s, from + 1);
      }
    }
  }

  /** The text part for `s[from..i]`, present only when it is not empty
      (script.js:190-192, 204-206). */
  function TextBefore(s: string, from: nat, i: nat): seq<Part>
    requires from <= i <= |s|
  {
    if i > from then [Text(s[from..i])] else []
  }

  /** The parts the scan produces from index `from` on: the text before
      each formula (when there is any), the formula's inner text, and the
      rest after the last formula (when there is any). */
  function Split(s: string, from: nat): seq<Part>
    requires from <= |s|
    decreases |s| - from
  {
    match NextFormula(s, from)
    case None => TextBefore(s, from, |s|)
    case Some(f) => TextBefore(s, from, f.open) + [Latex(s[f.open + 1..f.close])] + Split(s, f.close + 1)
  }

  /** The loop of script.js:184-202 and the tail of script.js:204-206. */
  method SplitFormulas(s: string) returns (parts: seq<Part>)
    ensures parts == Split(s, 0)
    ensures Concat(parts) == s
  {
    parts := [];
    var last: nat := 0;
    var m := NextFormula(s, last);
    while m.Some?
      invariant last <= |s|
      invariant m == NextFormula(s, last)
      invariant parts + Split(s, last) == Split(s, 0)
      decreases |s| - last
    {
      var f := m.value;
      ghost var done := parts;
      if f.open > last {
        parts := parts + [Text(s[last..f.open])];
      }
      assert parts == done + TextBefore(s, last, f.open);
      parts := parts + [Latex(s[f.open + 1..f.close])];
      SplitLoopStep(s, last, f, done);
      last := f.close + 1;
      m := NextFormula(s, last);
    }
    SplitNone(s, last);
    if last < |s| {
      assert s[last..|s|] == s[last..];
      parts := parts + [Text(s[last..])];
    } else {
      assert parts + [] == parts;
    }
    SplitRoundTrip(s, 0);
  }

  /** `Split` from `from` when the next formula is `f`, written out. */
  lemma SplitStep(s: string, from: nat, f: Formula)
    requires from <= |s| && NextFormula(s, from) == Some(f)
    ensures Split(s, from) == TextBefore(s, from, f.open) + [Latex(s[f.open + 1..f.close])] + Split(s, f.close + 1)
  {
  }

  /** The loop invariant survives one formula. */
  lemma SplitLoopStep(s: string, last: nat, f: Formula, done: seq<Part>)
    requires last <= |s| && NextFormula(s, last) == Some(f)
    requires done + Split(s, last) == Split(s, 0)
    ensures (done + TextBefore(s, last, f.open) + [Latex(s[f.open + 1..f.close])]) + Split(s, f.close + 1) == Split(s, 0)
  {
    SplitStep(s, last, f);
    AppendStep(done, TextBefore(s, last, f.open), [Latex(s[f.open + 1..f.close])], Split(s, f.close + 1));
  }

  lemma AppendStep<T>(done: seq<T>, a: seq<T>, b: seq<T>, rest: seq<T>)
    ensures (done + a + b) + rest == done + (a + b + rest)
  {
  }

  lemma TextBeforeConcat(s: string, from: nat, i: nat)
    requires from <= i <= |s|
    ensures Concat(TextBefore(s, from, i)) == s[from..i]
  {
    if i > from {
      assert Concat([Text(s[from..i])]) == s[from..i] + Concat([]);
    }
  }

  /** One formula's span: the text before it, `$`, the inner text, `$`. */
  lemma ConcatFormulaStep(s: string, from: nat, i: nat, j: nat, rest: seq<Part>)
    requires from <= i < j < |s| && s[i] == '$' && s[j] == '$'
    requires Concat(rest) == s[j + 1..]
    ensures Concat(TextBefore(s, from, i) + [Latex(s[i + 1..j])] + rest) == s[from..]
  {
    ConcatLatexBetween(TextBefore(s, from, i), s[i + 1..j], rest);
    TextBeforeConcat(s, from, i);
    DollarSplit(s, from, i, j);
  }

  lemma ConcatLatexBetween(before: seq<Part>, inner: string, rest: seq<Part>)
    ensures Concat(before + [Latex(inner)] + rest) == Concat(before) + ("$" + inner + "$") + Concat(rest)
  {
    var latex := [Latex(inner)];
    ConcatAppend(before + latex, rest);
    ConcatAppend(before, latex);
    ConcatSingle(Latex(inner));
  }

  lemma ConcatSingle(p: Part)
    ensures Concat([p]) == Rendered(p)
  {
    assert [p][1..] == [];
  }

  lemma DollarSplit(s: string, from: nat, i: nat, j: nat)
    requires from <= i < j < |s| && s[i] == '$' && s[j] == '$'
    ensures s[from..i] + ("$" + s[i + 1..j] + "$") + s[j + 1..] == s[from..]
  {
    assert s[from..] == s[from..i] + [s[i]] + s[i + 1..j] + [s[j]] + s[j + 1..];
  }

  /** Concatenating the rendered parts gives back the text they were cut
      from, character for character. */
  lemma {:induction false} SplitRoundTrip(s: string, from: nat)
    requires from <= |s|
    ensures Concat(Split(s, from)) == s[from..]
    decreases |s| - from
  {
    var m := NextFormula(s, from);
    if m.Some? {
      SplitRoundTrip(s, m.value.close + 1);
      RoundTripStep(s, from, m.value);
    } else {
      SplitNone(s, from);
      TextBeforeConcat(s, from, |s|);
    }
  }

  /** `Split` from `from` when no formula follows, written out. */
  lemma SplitNone(s: string, from: nat)
    requires from <= |s| && NextFormula(s, from).None?
    ensures Split(s, from) == TextBefore(s, from, |s|)
  {
  }

  /** One step of the round trip: the formula at the front, then the rest. */
  lemma RoundTripStep(s: string, from: nat, f: Formula)
    requires from <= |s| && NextFormula(s, from) == Some(f)
    requires Concat(Split(s, f.close + 1)) == s[f.close + 1..]
    ensures Concat(Split(s, from)) == s[from..]
  {
    SplitStep(s, from, f);
    ConcatFormulaStep(s, from, f.open, f.close, Split(s, f.close + 1));
  }

  /** What the scan can produce: no empty text part, no formula holding a
      `$` or a line break, and never two text parts in a row. */
  ghost predicate WellFormed(parts: seq<Part>) {
    (forall k :: 0 <= k < |parts| && parts[k].Text? ==> parts[k].content != [])
    && (forall k :: 0 <= k < |parts| && parts[k].Latex? ==> InlineFormula(parts[k].content))
    && (forall k: nat :: !TextPair(parts, k))
  }

  /** Text parts at both `k` and `k + 1`. */
  ghost predicate TextPair(parts: seq<Part>, k: nat) {
    k + 1 < |parts| && parts[k].Text? && parts[k + 1].Text?
  }

  /** What `(.*?)` can capture: no `$`, no line terminator. */
  ghost predicate InlineFormula(c: string) {
    forall t :: 0 <= t < |c| ==> c[t] != '$' && !IsLineTerminator(c[t])
  }

  lemma WellFormedAppend(a: seq<Part>, b: seq<Part>)
    requires WellFormed(a) && WellFormed(b)
    requires a != [] && b != [] && a[|a| - 1].Text? ==> b[0].Latex?
    ensures WellFormed(a + b)
  {
    var ab := a + b;
    forall k: nat
      ensures !TextPair(ab, k)
    {
      if k + 1 < |a| {
        assert ab[k] == a[k] && ab[k + 1] == a[k + 1] && !TextPair(a, k);
      } else if k + 1 == |a| {
        assert ab[k] == a[k];
      } else if k + 1 < |ab| {
        assert ab[k] == b[k - |a|] && ab[k + 1] == b[k + 1 - |a|] && !TextPair(b, k - |a|);
      }
    }
  }

  lemma TextBeforeWellFormed(s: string, from: nat, i: nat)
    requires from <= i <= |s|
    ensures WellFormed(TextBefore(s, from, i))
  {
  }

  lemma LatexWellFormed(s: string, i: nat, j: nat)
    requires FormulaAt(s, i, j)
    ensures WellFormed([Latex(s[i + 1..j])])
  {
    var c := s[i + 1..j];
    forall t | 0 <= t < |c|
      ensures c[t] != '$' && !IsLineTerminator(c[t])
    {
      assert c[t] == s[i + 1 + t];
    }
  }

  /** Every list of parts the scan produces is well formed. */
  lemma {:induction false} SplitWellFormed(s: string, from: nat)
    requires from <= |s|
    ensures WellFormed(Split(s, from))
    decreases |s| - from
  {
    var m := NextFormula(s, from);
    if m.Some? {
      SplitWellFormed(s, m.value.close + 1);
      SplitWellFormedStep(s, from, m.value);
    } else {
      SplitNone(s, from);
      TextBeforeWellFormed(s, from, |s|);
    }
  }

  lemma SplitWellFormedStep(s: string, from: nat, f: Formula)
    requires from <= |s| && NextFormula(s, from) == Some(f)
    requires WellFormed(Split(s, f.close + 1))
    ensures WellFormed(Split(s, from))
  {
    NextFormulaMatches(s, from);
    var whole := TextBefore(s, from, f.open) + [Latex(s[f.open + 1..f.close])] + Split(s, f.close + 1);
    WellFormedStep(s, from, f, Split(s, f.close + 1));
    SplitStep(s, from, f);
    assert Split(s, from) == whole;
  }

  /** A text run, then a formula, then well-formed parts: well formed. */
  lemma WellFormedStep(s: string, from: nat, f: Formula, rest: seq<Part>)
    requires from <= f.open && FormulaAt(s, f.open, f.close)
    requires WellFormed(rest)
    ensures WellFormed(TextBefore(s, from, f.open) + [Latex(s[f.open + 1..f.close])] + rest)
  {
    var before := TextBefore(s, from, f.open);
    var latex := [Latex(s[f.open + 1..f.close])];
    TextBeforeWellFormed(s, from, f.open);
    LatexWellFormed(s, f.open, f.close);
    WellFormedAppend(before, latex);
    var both := before + latex;
    assert both[|both| - 1] == latex[0];
    WellFormedAppend(both, rest);
  }

  /** A reply without `$` is one plain-text part (none when it is empty). */
  lemma {:induction false} NoDollarIsPlainText(s: string, from: nat)
    requires from <= |s|
    requires forall k :: from <= k < |s| ==> s[k] != '$'
    ensures NextFormula(s, from).None?
    ensures Split(s, from) == if from < |s| then [Text(s[from..])] else []
    decreases |s| - from
  {
    if from < |s| {
      NoDollarIsPlainText(s, from + 1);
      assert s[from..|s|] == s[from..];
    }
  }
}

/** Character classes and string searches that the client's regular
    expressions and string methods are built from. Strings are sequences of
    code points; no normalisation is modelled. */
module Chars {
  import opened Wrappers

  /** The ECMAScript WhiteSpace and LineTerminator code points: the class
      `\s` matches and the characters `String.prototype.trim` strips. */
  predicate IsWs(c: char) {
    || c == '\t' || c == '\n' || c == '\U{B}' || c == '\U{C}' || c == '\r' || c == ' '
    || c == '\U{A0}' || c == '\U{1680}' || ('\U{2000}' <= c <= '\U{200A}')
    || c == '\U{2028}' || c == '\U{2029}' || c == '\U{202F}' || c == '\U{205F}'
    || c == '\U{3000}' || c == '\U{FEFF}'
  }

  /** The ECMAScript LineTerminator code points: what `.` refuses to match. */
  predicate IsLineTerminator(c: char) {
    c == '\n' || c == '\r' || c == '\U{2028}' || c == '\U{2029}'
  }

  /** True when `t.trim()` is the empty string, i.e. `t.trim()` is falsy. */
  predicate AllWs(t: string) {
    forall k :: 0 <= k < |t| ==> IsWs(t[k])
  }

  /** `pat` occurs in `s` at index `i`. */
  predicate StartsAt(s: string, i: nat, pat: string) {
    i + |pat| <= |s| && s[i..i + |pat|] == pat
  }

  /** The first occurrence of `pat` in `s` at or after `from` (`indexOf`). */
  function Find(s: string, pat: string, from: nat): (r: Option<nat>)
    ensures r.Some? ==> from <= r.value && StartsAt(s, r.value, pat)
    ensures r.Some? ==> forall q :: from <= q < r.value ==> !StartsAt(s, q, pat)
    ensures r.None? ==> forall q :: from <= q ==> !StartsAt(s, q, pat)
    decreases |s| - from
  {
    if from + |pat| > |s| then None
    else if StartsAt(s, from, pat) then Some(from)
    else Find(s, pat, from + 1)
  }

  /** `Find` returns `i` when `pat` occurs at `i` and nowhere between
      `from` and `i`. */
  lemma FindIs(s: string, pat: string, from: nat, i: nat)
    requires from <= i && StartsAt(s, i, pat)
    requires forall q: nat :: from <= q < i ==> !StartsAt(s, q, pat)
    ensures Find(s, pat, from) == Some(i)
  {}

  /** A string that begins with `o` cannot occur where `o` does not. */
  lemma NotStartsAtExtension(s: string, o: string, w: string, q: nat)
    requires |o| <= |w| && w[..|o|] == o && !StartsAt(s, q, o)
    ensures !StartsAt(s, q, w)
  {
    if q + |w| <= |s| {
      assert s[q..q + |o|] == s[q..q + |w|][..|o|];
    }
  }

  /** The end of the whitespace run that starts at `i`: where a greedy `\s*`
      stops. */
  function SkipWs(s: string, i: nat): (r: nat)
    requires i <= |s|
    ensures i <= r <= |s| && AllWs(s[i..r])
    ensures r < |s| ==> !IsWs(s[r])
    decreases |s| - i
  {
    if i < |s| && IsWs(s[i]) then
      var r := SkipWs(s, i + 1);
      assert s[i..r] == [s[i]] + s[i + 1..r];
      r
    else i
  }

  /** The start of the whitespace run that ends at `hi`, not going below `lo`. */
  function TrimEndIndex(s: string, lo: nat, hi: nat): (r: nat)
    requires lo <= hi <= |s|
    ensures lo <= r <= hi && AllWs(s[r..hi])
    ensures r > lo ==> !IsWs(s[r - 1])
    decreases hi
  {
    if hi > lo && IsWs(s[hi - 1]) then
      var r := TrimEndIndex(s, lo, hi - 1);
      assert s[r..hi] == s[r..hi - 1] + [s[hi - 1]];
      r
    else hi
  }

  /** `t.trim()`: `t` without its leading and trailing whitespace. */
  function Trim(t: string): (r: string)
    ensures exists lo, hi :: 0 <= lo <= hi <= |t| && r == t[lo..hi] && AllWs(t[..lo]) && AllWs(t[hi..])
    ensures r == [] <==> AllWs(t)
    ensures r != [] ==> !IsWs(r[0]) && !IsWs(r[|r| - 1])
    ensures |r| <= |t|
  {
    var lo := SkipWs(t, 0);
    var hi := TrimEndIndex(t, lo, |t|);
    TrimEnds(t, lo, hi);
    var r := t[lo..hi];
    assert r != [] ==> r[0] == t[lo] && r[|r| - 1] == t[hi - 1];
    r
  }

  /** The two cuts `Trim` makes take only whitespace, and keep a
      non-whitespace character at each end when anything is left. */
  lemma TrimEnds(t: string, lo: nat, hi: nat)
    requires lo == SkipWs(t, 0) && hi == TrimEndIndex(t, lo, |t|)
    ensures 0 <= lo <= hi <= |t| && AllWs(t[..lo]) && AllWs(t[hi..])
    ensures t[lo..hi] == [] <==> AllWs(t)
    ensures lo < hi ==> !IsWs(t[lo]) && !IsWs(t[hi - 1])
  {
    assert t[..lo] == t[0..lo];
    assert t[hi..] == t[hi..|t|];
    if lo == |t| {
      assert t == t[0..lo];
    } else {
      assert hi > lo;
      assert !AllWs(t) by { assert !IsWs(t[lo]); }
    }
  }

  /** `s.replace(t, '')` with a string pattern: the first occurrence of `t`
      is removed; when there is none, `s` is returned unchanged. */
  function ReplaceFirst(s: string, t: string): (r: string)
    ensures (forall k: nat :: !StartsAt(s, k, t)) ==> r == s
    ensures forall k: nat :: StartsAt(s, k, t) && (forall q: nat :: q < k ==> !StartsAt(s, q, t)) ==>
              r == s[..k] + s[k + |t|..]
    ensures Find(s, t, 0).None? ==> r == s
    ensures Find(s, t, 0).Some? ==> |r| == |s| - |t|
  {
    match Find(s, t, 0)
    case None => s
    case Some(k) => s[..k] + s[k + |t|..]
  }

  /** The decimal rendering of a natural number, as a template literal
      prints it: digits only, no leading zero, and reading it back gives
      the number. */
  function NatToString(n: nat): (r: string)
    ensures |r| >= 1
    ensures forall k :: 0 <= k < |r| ==> '0' <= r[k] <= '9'
    ensures |r| > 1 ==> r[0] != '0'
    ensures DecimalValue(r) == n
  {
    var d := [(n % 10) as char + '0'];
    if n < 10 then d
    else
      var hi := NatToString(n / 10);
      assert (hi + d)[..|hi + d| - 1] == hi;
      hi + d
  }

  /** The number a run of decimal digits denotes. */
  function DecimalValue(r: string): nat
    requires forall k :: 0 <= k < |r| ==> '0' <= r[k] <= '9'
  {
    if r == [] then 0 else 10 * DecimalValue(r[..|r| - 1]) + (r[|r| - 1] - '0') as nat
  }
}

/** "First entry in list order that matches wins": the search shared by the
    discipline table, the location fallback table and the ordered regex
    pattern lists of the field extractor. */
module Ordered {

  import opened Wrappers

  /** Index of the first element of `xs` satisfying `p`, or `None` when
      no element does. */
  function FirstIndex<T>(xs: seq<T>, p: T -> bool): (r: Option<nat>)
    ensures r.Some? ==> r.value < |xs| && p(xs[r.value])
    ensures r.Some? ==> forall j :: 0 <= j < r.value ==> !p(xs[j])
    ensures r.None? <==> forall j :: 0 <= j < |xs| ==> !p(xs[j])
    decreases |xs|
  {
    if |xs| == 0 then None
    else if p(xs[0]) then Some(0)
    else match FirstIndex(xs[1..], p)
      case None => None
      case Some(k) => Some(k + 1)
  }

  /** A matcher over a text: the capture it yields, or `None` when it
      does not match (a compiled regex's `search(text).group(1)`). */
  type Matcher<T> = string -> Option<T>

  /** Runs the matchers in list order on `text` and returns the capture of
      the first one that matches; later matchers are never consulted. */
  function FirstCapture<T>(ms: seq<Matcher<T>>, text: string): (r: Option<T>)
    ensures r.None? <==> forall j :: 0 <= j < |ms| ==> ms[j](text).None?
    ensures r.Some? ==> exists i :: 0 <= i < |ms| && ms[i](text) == r
                          && forall j :: 0 <= j < i ==> ms[j](text).None?
  {
    match FirstIndex(ms, (m: Matcher<T>) => m(text).Some?)
    case None => None
    case Some(i) => ms[i](text)
  }

  /** Matcher `i` is the first in list order that matches `text`. */
  predicate FirstMatchAt<T>(ms: seq<Matcher<T>>, text: string, i: int) {
    0 <= i < |ms| && ms[i](text).Some? && forall j :: 0 <= j < i ==> ms[j](text).None?
  }

  lemma FirstCaptureIsFirstMatch<T>(ms: seq<Matcher<T>>, text: string, i: int)
    requires FirstMatchAt(ms, text, i)
    ensures FirstCapture(ms, text) == ms[i](text)
  {
  }

  /** When matcher `i` is the first to match, its capture is the outcome,
      whatever the later matchers would have said: the matchers after the
      first match never decide anything. */
  lemma FirstCaptureIgnoresLater<T>(ms: seq<Matcher<T>>, ms': seq<Matcher<T>>, text: string, i: nat)
    requires i < |ms| && i < |ms'|
    requires ms[..i + 1] == ms'[..i + 1]
    requires ms[i](text).Some?
    requires forall j :: 0 <= j < i ==> ms[j](text).None?
    ensures FirstCapture(ms, text) == FirstCapture(ms', text) == ms[i](text)
  {
    assert forall j :: 0 <= j <= i ==> ms[j] == ms[..i + 1][j] == ms'[j];
  }
}

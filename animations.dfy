/** `applyEntranceAnimations`: every element matched by `.card, .hero-section`
    gets the class `fade-in` and an `animation-delay` of a tenth of a second
    per element matched before it. The page is an array of element records in
    document order; a delay is kept as a whole number of tenths. */
module Animations {
  import opened Options

  const FadeIn := "fade-in"

  /** An element as the animation step sees it: its class list, in order,
      and its inline `animation-delay` in tenths of a second, None when unset. */
  datatype Element = Element(classes: seq<string>, delayTenths: Option<nat>)

  /** Matched by the selector `.card, .hero-section`. */
  predicate Selected(e: Element)
  {
    "card" in e.classes || "hero-section" in e.classes
  }

  /** `classList.add(token)`: the token is appended unless it is already there. */
  function AddClass(classes: seq<string>, token: string): (r: seq<string>)
    ensures |classes| <= |r| <= |classes| + 1 && r[..|classes|] == classes
    ensures token in r
    ensures forall c :: c in r ==> c in classes || c == token
    ensures token in classes ==> r == classes
  {
    if token in classes then classes else classes + [token]
  }

  /** How many elements before position `i` the selector matches: the index
      `forEach` gives the element at `i` when it is matched. */
  function SelectedBefore(s: seq<Element>, i: nat): (n: nat)
    requires i <= |s|
    ensures n <= i
  {
    if i == 0 then 0
    else SelectedBefore(s, i - 1) + (if Selected(s[i - 1]) then 1 else 0)
  }

  /** The count grows by at least one past every matched element. */
  lemma {:induction false} SelectedBeforeGrows(s: seq<Element>, i: nat, j: nat)
    requires i < j <= |s| && Selected(s[i])
    ensures SelectedBefore(s, i) < SelectedBefore(s, j)
    decreases j
  {
    if j > i + 1 {
      SelectedBeforeGrows(s, i, j - 1);
    }
  }

  /** What one call of the `forEach` callback does to the element at `index`. */
  function Animate(e: Element, index: nat): Element
  {
    Element(AddClass(e.classes, FadeIn), Some(index))
  }

  /** The page after the animation step: the same elements in the same
      places, matched by the selector exactly where they were before. */
  function Animated(s: seq<Element>): (r: seq<Element>)
    ensures |r| == |s|
    ensures forall i :: 0 <= i < |s| ==> (Selected(r[i]) <==> Selected(s[i]))
  {
    seq(|s|, i requires 0 <= i < |s| =>
      if Selected(s[i]) then Animate(s[i], SelectedBefore(s, i)) else s[i])
  }

  /** `document.querySelectorAll('.card, .hero-section')`: the positions of the
      matched elements, in document order. */
  method QuerySelectAll(doc: array<Element>) returns (matched: seq<nat>)
    ensures |matched| == SelectedBefore(doc[..], doc.Length)
    ensures forall j :: 0 <= j < |matched| ==>
      matched[j] < doc.Length && Selected(doc[matched[j]]) &&
      SelectedBefore(doc[..], matched[j]) == j
  {
    matched := [];
    var i := 0;
    while i < doc.Length
      invariant 0 <= i <= doc.Length
      invariant |matched| == SelectedBefore(doc[..], i)
      invariant forall j :: 0 <= j < |matched| ==>
        matched[j] < i && Selected(doc[matched[j]]) &&
        SelectedBefore(doc[..], matched[j]) == j
    {
      if Selected(doc[i]) {
        matched := matched + [i];
      }
      i := i + 1;
    }
  }

  /** `applyEntranceAnimations`: the matched elements are visited in order,
      the `index`-th one gets `fade-in` and a delay of `index` tenths. */
  method ApplyEntranceAnimations(doc: array<Element>)
    modifies doc
    ensures doc[..] == Animated(old(doc[..]))
  {
    ghost var s := doc[..];
    var matched := QuerySelectAll(doc);
    var index := 0;
    while index < |matched|
      invariant 0 <= index <= |matched|
      invariant forall k :: 0 <= k < doc.Length ==>
        doc[k] == if Selected(s[k]) && SelectedBefore(s, k) < index
                  then Animate(s[k], SelectedBefore(s, k)) else s[k]
    {
      var position := matched[index];
      forall k | 0 <= k < doc.Length && k != position && Selected(s[k])
        ensures SelectedBefore(s, k) != index
      {
        if k < position {
          SelectedBeforeGrows(s, k, position);
        } else {
          SelectedBeforeGrows(s, position, k);
        }
      }
      doc[position] := Animate(doc[position], index);
      index := index + 1;
    }
    forall k | 0 <= k < doc.Length && Selected(s[k])
      ensures SelectedBefore(s, k) < |matched|
    {
      SelectedBeforeGrows(s, k, doc.Length);
    }
  }

  /** Every matched element fades in and waits one tenth of a second per
      element matched before it; the others are left as they were. */
  lemma AnimatedElements(s: seq<Element>, k: nat)
    requires k < |s|
    ensures Selected(s[k]) ==> FadeIn in Animated(s)[k].classes
    ensures Selected(s[k]) ==> Animated(s)[k].delayTenths == Some(SelectedBefore(s, k))
    ensures !Selected(s[k]) ==> Animated(s)[k] == s[k]
  {
  }

  /** No element before position `k` is matched exactly when none is counted. */
  lemma {:induction false} NoneSelectedBefore(s: seq<Element>, k: nat)
    requires k <= |s|
    ensures SelectedBefore(s, k) == 0 <==> forall i :: 0 <= i < k ==> !Selected(s[i])
    decreases k
  {
    if k > 0 {
      NoneSelectedBefore(s, k - 1);
    }
  }

  /** A matched element starts at once exactly when it is the first matched
      element of the page. */
  lemma FirstStartsAtOnce(s: seq<Element>, k: nat)
    requires k < |s| && Selected(s[k])
    ensures Animated(s)[k].delayTenths == Some(0) <==>
      forall i :: 0 <= i < k ==> !Selected(s[i])
  {
    NoneSelectedBefore(s, k);
  }

  /** The delays are staggered: along the document they strictly increase
      from one matched element to the next. */
  lemma StaggeredDelays(s: seq<Element>, i: nat, j: nat)
    requires i < j < |s| && Selected(s[i]) && Selected(s[j])
    ensures Animated(s)[i].delayTenths.value < Animated(s)[j].delayTenths.value
  {
    SelectedBeforeGrows(s, i, j);
  }
}

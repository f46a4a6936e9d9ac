/**
 * The animated statistics counters: which rendering `formatNumber` chooses,
 * and the `data-animated` marker that lets the counter observer start an
 * element's animation at most once.
 */
module Counters {

  /** The three renderings `formatNumber` can choose between. */
  datatype FormatKind =
    | Millions  // value / 1000000 with one decimal, followed by "M"
    | Grouped   // the rounded value with locale thousands separators
    | Plain     // the rounded value as plain digits

  /** The choice depends on the final target and the suffix only, never on the live value. */
  function FormatBranch(target: real, suffix: string): (k: FormatKind)
    ensures k == Millions <==> target >= 1000000.0
    ensures k == Grouped <==> 1000.0 <= target < 1000000.0 && '%' !in suffix
    ensures k == Plain <==> target < 1000.0 || (target < 1000000.0 && '%' in suffix)
  {
    if target >= 1000000.0 then Millions
    else if target >= 1000.0 && '%' !in suffix then Grouped
    else Plain
  }

  /**
   * A rendered counter, with the number left symbolic: the prefix, the
   * rendering chosen, the quantity that rendering formats and the suffix.
   */
  datatype Display = Display(prefix: string, kind: FormatKind, quantity: real, suffix: string)

  /** `formatNumber(number, target, prefix, suffix)`. */
  function FormatNumber(number: real, target: real, prefix: string, suffix: string): (d: Display)
    ensures d.prefix == prefix && d.suffix == suffix
    ensures d.kind == FormatBranch(target, suffix)
    ensures d.quantity * (if d.kind == Millions then 1000000.0 else 1.0) == number
  {
    var kind := FormatBranch(target, suffix);
    if kind == Millions then Display(prefix, kind, number / 1000000.0, suffix)
    else Display(prefix, kind, number, suffix)
  }

  /** The live value never changes the rendering chosen, only the quantity rendered. */
  lemma FormatKindIgnoresLiveValue(n1: real, n2: real, target: real, prefix: string, suffix: string)
    ensures FormatNumber(n1, target, prefix, suffix).kind == FormatNumber(n2, target, prefix, suffix).kind
  {
  }

  /** The three renderings on typical counters. */
  lemma FormatExamples()
    ensures FormatNumber(2500000.0, 2500000.0, "", "") == Display("", Millions, 2.5, "")
    ensures FormatNumber(4200.0, 4200.0, "", "") == Display("", Grouped, 4200.0, "")
    ensures FormatNumber(87.0, 87.0, "", "%") == Display("", Plain, 87.0, "%")
    ensures FormatNumber(5000.0, 5000.0, "", "%") == Display("", Plain, 5000.0, "%")
    ensures FormatNumber(1000000.0, 1000000.0, "$", "") == Display("$", Millions, 1.0, "")
  {
  }

  /** What one intersection entry does to one element: the new marker, and whether an animation starts. */
  datatype GuardStep = GuardStep(animated: bool, starts: bool)

  /** The observer callback's body for one entry. */
  function OnEntry(animated: bool, isIntersecting: bool): (g: GuardStep)
    ensures g.starts <==> isIntersecting && !animated
    ensures g.animated <==> animated || isIntersecting
  {
    if isIntersecting && !animated then GuardStep(true, true) else GuardStep(animated, false)
  }

  /** How many animations a sequence of entries for one element starts. */
  function Starts(animated: bool, entries: seq<bool>): (n: nat)
    ensures n <= 1
    ensures animated ==> n == 0
    decreases |entries|
  {
    if entries == [] then 0
    else
      var g := OnEntry(animated, entries[0]);
      (if g.starts then 1 else 0) + Starts(g.animated, entries[1..])
  }

  /** Whether the element carries the marker after a sequence of entries. */
  function AnimatedAfter(animated: bool, entries: seq<bool>): (marked: bool)
    ensures animated ==> marked
    ensures marked ==> animated || true in entries
    decreases |entries|
  {
    if entries == [] then animated else AnimatedAfter(OnEntry(animated, entries[0]).animated, entries[1..])
  }

  /**
   * At most one animation per element: exactly one when the element was not
   * yet marked and some entry intersects, none otherwise.
   */
  lemma {:induction false} AtMostOnce(animated: bool, entries: seq<bool>)
    ensures Starts(animated, entries) <= 1
    ensures Starts(animated, entries) == 1 <==> !animated && true in entries
    ensures AnimatedAfter(animated, entries) <==> animated || true in entries
    decreases |entries|
  {
    if entries != [] {
      var g := OnEntry(animated, entries[0]);
      AtMostOnce(g.animated, entries[1..]);
      assert true in entries <==> entries[0] || true in entries[1..];
      if g.starts {
        StartsNoneOnceMarked(entries[1..]);
      }
    }
  }

  /** A marked element never starts again. */
  lemma {:induction false} StartsNoneOnceMarked(entries: seq<bool>)
    ensures Starts(true, entries) == 0 && AnimatedAfter(true, entries)
    decreases |entries|
  {
    if entries != [] {
      StartsNoneOnceMarked(entries[1..]);
    }
  }

  /** A `.counter` element: its `data-animated` marker and the animations started on it. */
  class CounterElement {
    var animated: bool
    var runs: nat

    /** An element never runs more than one animation, and one that ran is marked. */
    predicate Valid()
      reads this
    {
      runs <= 1 && (runs == 1 ==> animated)
    }

    /** An element as the markup provides it, possibly already marked. */
    constructor (marked: bool)
      ensures animated == marked && runs == 0 && Valid()
    {
      animated := marked;
      runs := 0;
    }

    /** One intersection entry for this element: set the marker, then start the animation. */
    method OnIntersection(isIntersecting: bool) returns (started: bool)
      requires Valid()
      modifies this
      ensures Valid()
      ensures GuardStep(animated, started) == OnEntry(old(animated), isIntersecting)
      ensures runs == old(runs) + (if started then 1 else 0)
    {
      started := false;
      if isIntersecting {
        if !animated {
          animated := true;
          runs := runs + 1;
          started := true;
        }
      }
    }
  }

  /**
   * The observer callback over a batch of entries (the same element may
   * appear in several): each entry is handled in order.
   */
  method OnEntries(entries: seq<(CounterElement, bool)>) returns (started: seq<CounterElement>)
    requires forall e :: e in entries ==> e.0.Valid()
    modifies set e | e in entries :: e.0
    ensures forall e :: e in entries ==> e.0.Valid()
    ensures forall e :: e in entries && e.1 ==> e.0.animated
    ensures forall e :: e in entries && e.1 && !old(e.0.animated) ==> e.0 in started
    ensures forall c :: c in started ==> exists e :: e in entries && e.0 == c && e.1
    ensures forall c :: c in started ==> !old(c.animated) && c.animated && c.runs == old(c.runs) + 1
    ensures forall e :: e in entries && e.0 !in started ==>
              e.0.animated == old(e.0.animated) && e.0.runs == old(e.0.runs)
    ensures forall i, j :: 0 <= i < j < |started| ==> started[i] != started[j]
  {
    started := [];
    var i := 0;
    while i < |entries|
      invariant 0 <= i <= |entries|
      invariant forall e :: e in entries ==> e.0.Valid()
      invariant forall k :: 0 <= k < i && entries[k].1 ==> entries[k].0.animated
      invariant forall c :: c in started ==> exists k :: 0 <= k < i && entries[k].0 == c && entries[k].1
      invariant forall c :: c in started ==> !old(c.animated) && c.animated && c.runs == old(c.runs) + 1
      invariant forall e :: e in entries && e.0 !in started ==>
                  e.0.runs == old(e.0.runs) && e.0.animated == old(e.0.animated)
      invariant forall e :: e in entries && !old(e.0.animated) && e.0.animated ==> e.0 in started
      invariant forall a, b :: 0 <= a < b < |started| ==> started[a] != started[b]
    {
      var (counter, isIntersecting) := entries[i];
      var s := counter.OnIntersection(isIntersecting);
      if s {
        started := started + [counter];
      }
      i := i + 1;
    }
  }
}

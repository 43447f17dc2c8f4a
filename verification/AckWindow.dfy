/**
  * The bounded set of acknowledged numbers kept per client: a FIFO window with constant
  * time lookup and the highest number ever inserted.
  */
module AckWindow {

  const MAX: nat := 10000

  datatype Window = Window(order: seq<nat>, lookup: set<nat>, maxSeq: nat)

  const EMPTY := Window([], {}, 0)

  function Inserted(w: Window, s: nat): Window {
    if s in w.lookup then w
    else
      var full := |w.order| >= MAX;
      Window((if full then w.order[1..] else w.order) + [s],
             (if full then w.lookup - {w.order[0]} else w.lookup) + {s},
             if s > w.maxSeq then s else w.maxSeq)
  }

  function InsertedAll(w: Window, xs: seq<nat>): Window {
    if xs == [] then w else Inserted(InsertedAll(w, xs[..|xs| - 1]), xs[|xs| - 1])
  }

  /** Queue and lookup table hold the same distinct numbers, no more than MAX, none above the maximum. */
  ghost predicate Valid(w: Window) {
    && |w.order| <= MAX
    && (forall i, j :: 0 <= i < j < |w.order| ==> w.order[i] != w.order[j])
    && (forall s :: s in w.lookup <==> s in w.order)
    && (forall s :: s in w.order ==> s <= w.maxSeq)
    && (w.order == [] ==> w.maxSeq == 0)
  }

  /** The window of one client, updated in place. */
  class BoundedAckSet {
    var order: seq<nat>
    var lookup: set<nat>
    var maxSeq: nat

    ghost function View(): Window
      reads this
    {
      Window(order, lookup, maxSeq)
    }

    constructor ()
      ensures View() == EMPTY
    {
      order, lookup, maxSeq := [], {}, 0;
    }

    /** A copy of a stored window. */
    constructor Of(w: Window)
      ensures View() == w
    {
      order, lookup, maxSeq := w.order, w.lookup, w.maxSeq;
    }

    method Insert(s: nat)
      modifies this
      ensures View() == Inserted(old(View()), s)
    {
      if s in lookup { return; }
      if |order| >= MAX {
        lookup := lookup - {order[0]};
        order := order[1..];
      }
      order := order + [s];
      lookup := lookup + {s};
      if s > maxSeq { maxSeq := s; }
    }

    method Contains(s: nat) returns (b: bool)
      requires Valid(View())
      ensures b <==> s in order
    {
      b := s in lookup;
    }

    method IsEmpty() returns (b: bool)
      requires Valid(View())
      ensures b <==> order == []
    {
      b := lookup == {};
      assert order != [] ==> order[0] in lookup;
    }
  }

  lemma InsertedValid(w: Window, s: nat)
    requires Valid(w)
    ensures Valid(Inserted(w, s)) && s <= Inserted(w, s).maxSeq && Inserted(w, s).order != []
  {
    var r := Inserted(w, s);
    if s !in w.lookup && |w.order| >= MAX {
      assert w.order == [w.order[0]] + w.order[1..];
      forall x ensures x in r.lookup <==> x in r.order {
      }
    }
  }

  // ----- The maximum -----

  /** The largest number in `xs`, zero if there is none. */
  function MaxOf(xs: seq<nat>): (m: nat)
  {
    if xs == [] then 0 else var m := MaxOf(xs[..|xs| - 1]); if xs[|xs| - 1] > m then xs[|xs| - 1] else m
  }

  lemma {:induction false} MaxOfSpec(xs: seq<nat>)
    ensures forall i :: 0 <= i < |xs| ==> xs[i] <= MaxOf(xs)
    ensures xs != [] ==> exists i :: 0 <= i < |xs| && xs[i] == MaxOf(xs)
  {
    if xs != [] {
      var n := |xs| - 1;
      MaxOfSpec(xs[..n]);
      if n > 0 && xs[n] <= MaxOf(xs[..n]) {
        var i :| 0 <= i < n && xs[..n][i] == MaxOf(xs[..n]);
        assert xs[i] == MaxOf(xs);
      } else {
        assert xs[n] == MaxOf(xs);
      }
      forall i | 0 <= i < |xs| ensures xs[i] <= MaxOf(xs) {
        if i < n { assert xs[..n][i] == xs[i]; }
      }
    }
  }

  /** Lists with the same elements have the same maximum. */
  lemma MaxOfSameElements(xs: seq<nat>, ys: seq<nat>)
    requires forall x :: x in xs ==> x in ys
    ensures MaxOf(xs) <= MaxOf(ys)
  {
    hide MaxOf;
    MaxOfSpec(xs);
    MaxOfSpec(ys);
    if xs != [] {
      var i :| 0 <= i < |xs| && xs[i] == MaxOf(xs);
      assert xs[i] in ys;
    } else {
      MaxOfNone();
    }
  }

  lemma MaxOfNone()
    ensures MaxOf([]) == 0
  {
  }

  /** Insertion keeps the window valid and its maximum is the largest number ever inserted. */
  lemma {:induction false} InsertedAllMax(w: Window, xs: seq<nat>)
    requires Valid(w)
    ensures Valid(InsertedAll(w, xs))
    ensures InsertedAll(w, xs).maxSeq == if MaxOf(xs) > w.maxSeq then MaxOf(xs) else w.maxSeq
    ensures xs != [] ==> InsertedAll(w, xs).order != []
  {
    if xs != [] {
      var init := InsertedAll(w, xs[..|xs| - 1]);
      InsertedAllMax(w, xs[..|xs| - 1]);
      InsertedValid(init, xs[|xs| - 1]);
    }
  }

  /** The maximum after inserting a set does not depend on the order in which its elements come. */
  lemma MaxOrderIndependent(w: Window, xs: seq<nat>, ys: seq<nat>)
    requires Valid(w) && forall x :: x in xs <==> x in ys
    ensures InsertedAll(w, xs).maxSeq == InsertedAll(w, ys).maxSeq
  {
    InsertedAllMax(w, xs);
    InsertedAllMax(w, ys);
    MaxOfSameElements(xs, ys);
    MaxOfSameElements(ys, xs);
  }

  // ----- The FIFO window -----

  ghost predicate Increasing(xs: seq<nat>) {
    forall i, j :: 0 <= i < j < |xs| ==> xs[i] < xs[j]
  }

  function LastMax(xs: seq<nat>): seq<nat> {
    if |xs| <= 10000 then xs else xs[|xs| - 10000..]
  }

  lemma LastMaxSnoc(xs: seq<nat>, s: nat)
    ensures LastMax(xs + [s]) == (if |xs| >= MAX then LastMax(xs)[1..] else LastMax(xs)) + [s]
  {
  }

  lemma InsertedAbove(w: Window, xs: seq<nat>, s: nat)
    requires Valid(w) && w.order == LastMax(xs) && forall i :: 0 <= i < |xs| ==> xs[i] < s
    ensures Inserted(w, s).order == LastMax(xs + [s])
  {
    assert forall i :: 0 <= i < |w.order| ==> w.order[i] < s;
    assert s !in w.order;
    LastMaxSnoc(xs, s);
  }

  lemma EmptyWindow()
    ensures Valid(EMPTY) && EMPTY.order == LastMax([])
  {
  }

  // ----- The window as a list that forgets -----

  /** The inserts that were accepted: those not among the last 10000 accepted before them. */
  function Accepted(xs: seq<nat>): seq<nat> {
    if xs == [] then []
    else
      var before, s := Accepted(xs[..|xs| - 1]), xs[|xs| - 1];
      if s in LastMax(before) then before else before + [s]
  }

  lemma InsertedAccepted(w: Window, acc: seq<nat>, s: nat)
    requires Valid(w) && w.order == LastMax(acc)
    ensures Inserted(w, s).order == LastMax(if s in LastMax(acc) then acc else acc + [s])
  {
    LastMaxSnoc(acc, s);
  }

  /**
    * Whatever is inserted, in whatever order and however often: the queue is the last 10000 of
    * the accepted inserts, and the lookup table holds exactly those.
    */
  lemma {:induction false} WindowForgets(xs: seq<nat>)
    ensures InsertedAll(EMPTY, xs).order == LastMax(Accepted(xs))
    ensures forall s :: s in InsertedAll(EMPTY, xs).lookup <==> s in LastMax(Accepted(xs))
    ensures Valid(InsertedAll(EMPTY, xs))
  {
    hide Inserted, LastMax;
    if xs == [] {
      EmptyWindow();
    } else {
      var n := |xs| - 1;
      WindowForgets(xs[..n]);
      var w := InsertedAll(EMPTY, xs[..n]);
      InsertedAccepted(w, Accepted(xs[..n]), xs[n]);
      InsertedValid(w, xs[n]);
    }
  }

  /** For increasing inserts the window is exactly the last MAX numbers. */
  lemma {:induction false} IncreasingWindow(xs: seq<nat>)
    requires Increasing(xs)
    ensures InsertedAll(EMPTY, xs).order == LastMax(xs)
    ensures Valid(InsertedAll(EMPTY, xs))
  {
    hide Inserted, Valid, LastMax;
    if xs == [] {
      EmptyWindow();
    } else {
      var n := |xs| - 1;
      IncreasingWindow(xs[..n]);
      var w := InsertedAll(EMPTY, xs[..n]);
      InsertedAbove(w, xs[..n], xs[n]);
      InsertedValid(w, xs[n]);
      assert xs == xs[..n] + [xs[n]];
    }
  }

  /** The maximum outlives eviction: after MAX further increasing inserts the first number is gone. */
  lemma EvictedButBelowMax(xs: seq<nat>)
    requires Increasing(xs) && |xs| > MAX
    ensures xs[0] !in InsertedAll(EMPTY, xs).lookup && InsertedAll(EMPTY, xs).maxSeq == xs[|xs| - 1]
  {
    IncreasingWindow(xs);
    InsertedAllMax(EMPTY, xs);
    MaxOfSpec(xs);
    assert forall i :: 0 <= i < |LastMax(xs)| ==> LastMax(xs)[i] > xs[0];
  }
}

/** Runs of the physical page allocator, one page at a time. */
module PageRuns {
  import opened Words
  import opened PageBitmap

  /** The free pages and the place where the next search begins. */
  datatype Pages = Pages(clear: set<nat>, last: nat)

  /** A page handed out by alloc_pmm(1), or pages given back by free_pmm. */
  datatype Event = Got(page: nat) | Gave(pages: set<nat>)

  /** The caller gives back only pages it holds; the allocator answers as alloc_pmm(1) does. */
  ghost predicate Allowed(s: Pages, held: set<nat>, e: Event, limit: nat) {
    match e
    case Got(p) => Answer(s.clear, s.last, 1, limit, Some(p))
    case Gave(ps) => ps <= held
  }

  function After(s: Pages, e: Event): Pages {
    match e
    case Got(p) => Pages(s.clear - {p}, p)
    case Gave(ps) => Pages(s.clear + ps, s.last)
  }

  function HeldAfter(held: set<nat>, e: Event): set<nat> {
    match e
    case Got(p) => held + {p}
    case Gave(ps) => held - ps
  }

  ghost predicate Run(s: Pages, held: set<nat>, es: seq<Event>, limit: nat)
    decreases |es|
  {
    es == [] || (Allowed(s, held, es[0], limit) && Run(After(s, es[0]), HeldAfter(held, es[0]), es[1..], limit))
  }

  function End(s: Pages, held: set<nat>, es: seq<Event>): (Pages, set<nat>)
    decreases |es|
  {
    if es == [] then (s, held) else End(After(s, es[0]), HeldAfter(held, es[0]), es[1..])
  }

  /** No page is ever free and held at once, and none is lost: free and held pages together stay
      the same set. */
  lemma {:induction false} RunConserves(s: Pages, held: set<nat>, es: seq<Event>, limit: nat)
    requires s.clear !! held && Run(s, held, es, limit)
    ensures var (s', held') := End(s, held, es);
      s'.clear !! held' && s'.clear + held' == s.clear + held
    decreases |es|
  {
    if es != [] {
      if es[0].Got? { OnePageIsExclusive(s.clear, s.last, limit, es[0].page); }
      RunConserves(After(s, es[0]), HeldAfter(held, es[0]), es[1..], limit);
    }
  }

  /** Page p is given back somewhere in events lo..hi-1. */
  ghost predicate GivenBack(es: seq<Event>, lo: nat, hi: nat, p: nat)
    requires hi <= |es|
  {
    exists k :: lo <= k < hi && es[k].Gave? && p in es[k].pages
  }

  /** A page that is held is not handed out before it is given back. */
  lemma {:induction false} HeldIsNotHandedOut(s: Pages, held: set<nat>, es: seq<Event>, limit: nat, p: nat, j: nat)
    requires s.clear !! held && Run(s, held, es, limit) && p in held
    requires j < |es| && es[j] == Got(p)
    ensures GivenBack(es, 0, j, p)
    decreases j
  {
    if es[0].Got? { OnePageIsExclusive(s.clear, s.last, limit, es[0].page); }
    if j > 0 && !(es[0].Gave? && p in es[0].pages) {
      HeldIsNotHandedOut(After(s, es[0]), HeldAfter(held, es[0]), es[1..], limit, p, j - 1);
      var k :| 0 <= k < j - 1 && es[1..][k].Gave? && p in es[1..][k].pages;
      assert es[k + 1] == es[1..][k];
    }
  }

  /** No page is handed out twice without being given back in between. */
  lemma {:induction false} NoDoubleHandOut(s: Pages, held: set<nat>, es: seq<Event>, limit: nat, p: nat, i: nat, j: nat)
    requires s.clear !! held && Run(s, held, es, limit)
    requires i < j < |es| && es[i] == Got(p) && es[j] == Got(p)
    ensures GivenBack(es, i + 1, j, p)
    decreases i
  {
    var s', held' := After(s, es[0]), HeldAfter(held, es[0]);
    if es[0].Got? { OnePageIsExclusive(s.clear, s.last, limit, es[0].page); }
    if i == 0 {
      HeldIsNotHandedOut(s', held', es[1..], limit, p, j - 1);
      var k :| 0 <= k < j - 1 && es[1..][k].Gave? && p in es[1..][k].pages;
      assert es[k + 1] == es[1..][k];
    } else {
      NoDoubleHandOut(s', held', es[1..], limit, p, i - 1, j - 1);
      var k :| i <= k < j - 1 && es[1..][k].Gave? && p in es[1..][k].pages;
      assert es[k + 1] == es[1..][k];
    }
  }

  /** Each allocation takes exactly one page, below the limit, from the free pages; giving it back
      restores them. */
  lemma TakeAndGiveBack(s: Pages, held: set<nat>, p: nat, limit: nat)
    requires s.clear !! held && Allowed(s, held, Got(p), limit)
    ensures p in s.clear && p < limit && |After(s, Got(p)).clear| == |s.clear| - 1
    ensures After(After(s, Got(p)), Gave({p})).clear == s.clear
    ensures HeldAfter(HeldAfter(held, Got(p)), Gave({p})) == held
  {
    OnePageIsExclusive(s.clear, s.last, limit, p);
  }

  /** alloc_pmm(1) stops the kernel only when no page below the limit is free. */
  lemma StopsOnlyWhenFull(s: Pages, limit: nat)
    ensures Answer(s.clear, s.last, 1, limit, None) <==> forall p: nat :: p < limit ==> p !in s.clear
  {
    forall p: nat | p < limit ensures EndsRun(s.clear, 0, p, 1) <==> p in s.clear {
    }
  }
}

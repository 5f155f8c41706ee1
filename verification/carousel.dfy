/** The news carousel of the dashboard page (script.js): a row of slides and a
    row of dots of which exactly the current one carries the `active` class.
    The class lists are modelled as one boolean per element. */
module Carousel {
  import opened Common

  /** The carousel's DOM state: whether each news link and each dot is active,
      and the closure's currentIndex. */
  datatype Carousel = Carousel(links: seq<bool>, dots: seq<bool>, current: int)

  /** The number of active elements in a row. */
  function Count(bs: seq<bool>): nat {
    if |bs| == 0 then 0 else (if bs[0] then 1 else 0) + Count(bs[1..])
  }

  /** Exactly element `k` of the row is active (none when `k` is out of range). */
  ghost predicate OnlyActive(bs: seq<bool>, k: int) {
    forall i :: 0 <= i < |bs| ==> (bs[i] <==> i == k)
  }

  /** A carousel after showSlide: at least one slide, the current index on a
      slide, and that slide and its dot the only active ones. */
  ghost predicate Valid(c: Carousel) {
    && |c.links| > 0
    && 0 <= c.current < |c.links|
    && OnlyActive(c.links, c.current)
    && OnlyActive(c.dots, c.current)
  }

  /** The wrap-around of showSlide: past the end goes to the first slide, before
      the start goes to the last, anything else is kept. */
  function Wrap(n: nat, index: int): int
    requires n > 0
  {
    if index >= n then 0 else if index < 0 then n - 1 else index
  }

  /** showSlide(index). */
  function ShowSlide(c: Carousel, index: int): (r: Carousel)
    requires |c.links| > 0
    ensures Valid(r)
    ensures |r.links| == |c.links| && |r.dots| == |c.dots|
    ensures 0 <= index < |c.links| ==> r.current == index
    ensures index >= |c.links| ==> r.current == 0
    ensures index < 0 ==> r.current == |c.links| - 1
  {
    var k := Wrap(|c.links|, index);
    Carousel(seq(|c.links|, i => i == k), seq(|c.dots|, i => i == k), k)
  }

  /** initCarousel: nothing happens without news links; otherwise the first
      slide is shown. */
  function Init(links: seq<bool>, dots: seq<bool>): (r: Option<Carousel>)
    ensures r.None? <==> |links| == 0
    ensures r.Some? ==> Valid(r.value) && r.value.current == 0
    ensures r.Some? ==> |r.value.links| == |links| && |r.value.dots| == |dots|
  {
    if |links| == 0 then None else Some(ShowSlide(Carousel(links, dots, 0), 0))
  }

  /** The next button. */
  function Next(c: Carousel): (r: Carousel)
    requires |c.links| > 0
    ensures Valid(r)
  {
    ShowSlide(c, c.current + 1)
  }

  /** The previous button. */
  function Prev(c: Carousel): (r: Carousel)
    requires |c.links| > 0
    ensures Valid(r)
  {
    ShowSlide(c, c.current - 1)
  }

  /** A click on dot `k`. A dot without a matching slide shows the first slide. */
  function DotClick(c: Carousel, k: nat): (r: Carousel)
    requires |c.links| > 0 && k < |c.dots|
    ensures Valid(r)
    ensures r.current == if k < |c.links| then k else 0
    ensures r.current < |r.dots| ==> r.dots[r.current]
  {
    ShowSlide(c, k)
  }

  /** Next steps forward by one, wrapping at the end. */
  lemma NextAdvances(c: Carousel)
    requires Valid(c)
    ensures Next(c).current == (c.current + 1) % |c.links|
  {
  }

  /** Prev steps back by one, wrapping at the start. */
  lemma PrevRetreats(c: Carousel)
    requires Valid(c)
    ensures Prev(c).current == (c.current - 1) % |c.links|
  {
  }

  /** Two valid carousels over rows of the same sizes showing the same slide
      are the same state: the class lists are determined by the index. */
  lemma SameSlideSameState(a: Carousel, b: Carousel)
    requires Valid(a) && Valid(b)
    requires |a.links| == |b.links| && |a.dots| == |b.dots| && a.current == b.current
    ensures a == b
  {
    assert a.links == b.links by {
      forall i | 0 <= i < |a.links| ensures a.links[i] == b.links[i] {
      }
    }
    assert a.dots == b.dots by {
      forall i | 0 <= i < |a.dots| ensures a.dots[i] == b.dots[i] {
      }
    }
  }

  /** Prev undoes Next and Next undoes Prev, at the ends too. */
  lemma NextPrevInverse(c: Carousel)
    requires Valid(c)
    ensures Prev(Next(c)) == c
    ensures Next(Prev(c)) == c
  {
    SameSlideSameState(Prev(Next(c)), c);
    SameSlideSameState(Next(Prev(c)), c);
  }

  /** A row with exactly element `k` active has one active element when `k` is
      in range and none otherwise. */
  lemma {:induction false} CountOnlyActive(bs: seq<bool>, k: int)
    requires OnlyActive(bs, k)
    ensures Count(bs) == if 0 <= k < |bs| then 1 else 0
  {
    if |bs| > 0 {
      assert OnlyActive(bs[1..], k - 1) by {
        forall i | 0 <= i < |bs| - 1 ensures bs[1..][i] <==> i == k - 1 {
          assert bs[1..][i] == bs[i + 1];
        }
      }
      CountOnlyActive(bs[1..], k - 1);
    }
  }

  /** In every valid state exactly one slide is active, and one dot is active
      exactly when the current slide has a dot. */
  lemma ExactlyOneActive(c: Carousel)
    requires Valid(c)
    ensures Count(c.links) == 1
    ensures Count(c.dots) == if c.current < |c.dots| then 1 else 0
  {
    CountOnlyActive(c.links, c.current);
    CountOnlyActive(c.dots, c.current);
  }

  /** Pressing next `k` times. */
  function NextTimes(c: Carousel, k: nat): (r: Carousel)
    requires |c.links| > 0
    ensures |r.links| == |c.links| && |r.dots| == |c.dots|
    ensures k > 0 ==> Valid(r)
  {
    if k == 0 then c else Next(NextTimes(c, k - 1))
  }

  /** Pressing next `k` times, up to one full turn, moves the index `k` places
      round the ring. */
  lemma {:induction false} NextTimesIndex(c: Carousel, k: nat)
    requires Valid(c) && k <= |c.links|
    ensures Valid(NextTimes(c, k))
    ensures NextTimes(c, k).current
      == if c.current + k < |c.links| then c.current + k else c.current + k - |c.links|
  {
    if k > 0 {
      NextTimesIndex(c, k - 1);
      NextAdvances(NextTimes(c, k - 1));
    }
  }

  /** A full turn of next presses returns to the starting state. */
  lemma FullTurn(c: Carousel)
    requires Valid(c)
    ensures NextTimes(c, |c.links|) == c
  {
    NextTimesIndex(c, |c.links|);
    SameSlideSameState(NextTimes(c, |c.links|), c);
  }
}

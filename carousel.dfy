/** The testimonials carousel of js/script.js: the state kept by the
    DOMContentLoaded closure, the render rule and the navigation handlers.

    The slide and dot elements are modelled by two boolean arrays: a slide is
    `true` when its `display` is `block`, a dot is `true` when it has the
    highlight colour. Timers are modelled by what is live, not by time. */
module TestimonialsCarousel {

  /** Widest viewport, in CSS pixels, that is still classified as mobile. */
  const MOBILE_MAX_WIDTH: int := 768

  /** The viewport classification taken at init and on a settled resize. */
  function IsMobileWidth(width: int): bool {
    width <= MOBILE_MAX_WIDTH
  }

  /** Slides visible at once for a cached classification. */
  function SlidesPerView(isMobileView: bool): nat {
    if isMobileView then 1 else 2
  }

  lemma SlidesPerViewByWidth(width: int)
    ensures SlidesPerView(IsMobileWidth(width)) == 1 <==> width <= 768
    ensures SlidesPerView(IsMobileWidth(width)) == 2 <==> width > 768
  {
  }

  // ---------------------------------------------------------------------
  // The render rule

  /** Whether slide `i` is displayed for a given index and window size. */
  function Shows(currentIndex: int, slidesPerView: nat, i: int): bool {
    currentIndex <= i < currentIndex + slidesPerView
  }

  /** The display flag of each of the `n` slides after a render. */
  function Window(n: nat, currentIndex: int, slidesPerView: nat): seq<bool> {
    seq(n, i => Shows(currentIndex, slidesPerView, i))
  }

  /** Number of `true` entries. */
  function CountTrue(s: seq<bool>): nat {
    if s == [] then 0 else CountTrue(s[..|s| - 1]) + (if s[|s| - 1] then 1 else 0)
  }

  function Min(a: int, b: int): int {
    if a <= b then a else b
  }

  /** Size of the intersection of [lo, hi) with [0, n). */
  function Overlap(n: nat, lo: int, hi: int): nat {
    var a := if lo < 0 then 0 else lo;
    var b := if hi < n then hi else n;
    if a < b then b - a else 0
  }

  /** However the index lies, the render shows exactly the slides of
      [currentIndex, currentIndex + slidesPerView) that exist. */
  lemma {:induction false} CountWindow(n: nat, currentIndex: int, slidesPerView: nat)
    ensures CountTrue(Window(n, currentIndex, slidesPerView))
         == Overlap(n, currentIndex, currentIndex + slidesPerView)
  {
    if n > 0 {
      assert Window(n, currentIndex, slidesPerView)[..n - 1] == Window(n - 1, currentIndex, slidesPerView);
      CountWindow(n - 1, currentIndex, slidesPerView);
    }
  }

  /** With an index in range, the visible slides are the contiguous run of
      min(slidesPerView, n - currentIndex) slides starting at currentIndex. */
  lemma VisibleRun(n: nat, currentIndex: int, slidesPerView: nat)
    requires 0 <= currentIndex < n
    ensures CountTrue(Window(n, currentIndex, slidesPerView)) == Min(slidesPerView, n - currentIndex)
    ensures forall i :: 0 <= i < n ==>
      (Window(n, currentIndex, slidesPerView)[i] <==> currentIndex <= i < currentIndex + Min(slidesPerView, n - currentIndex))
  {
    CountWindow(n, currentIndex, slidesPerView);
  }

  /** The dot highlighted for an index: the index itself on mobile, half of it
      rounded down on desktop. Dafny's `/` rounds down for a positive divisor,
      as `Math.floor(currentIndex / 2)` does, negative indices included. */
  function DotIndex(currentIndex: int, isMobileView: bool): int {
    if isMobileView then currentIndex else currentIndex / 2
  }

  /** The highlight flag of each of the `n` dots. */
  function Dots(n: nat, dotIndex: int): seq<bool> {
    seq(n, i => i == dotIndex)
  }

  lemma {:induction false} CountDots(n: nat, dotIndex: int)
    ensures CountTrue(Dots(n, dotIndex)) == if 0 <= dotIndex < n then 1 else 0
  {
    if n > 0 {
      assert Dots(n, dotIndex)[..n - 1] == Dots(n - 1, dotIndex);
      CountDots(n - 1, dotIndex);
    }
  }

  /** With an index in range, exactly one dot is highlighted, and it is the
      one `DotIndex` names. */
  lemma OneDotHighlighted(n: nat, currentIndex: int, isMobileView: bool)
    requires 0 <= currentIndex < n
    ensures 0 <= DotIndex(currentIndex, isMobileView) < n
    ensures Dots(n, DotIndex(currentIndex, isMobileView))[DotIndex(currentIndex, isMobileView)]
    ensures CountTrue(Dots(n, DotIndex(currentIndex, isMobileView))) == 1
  {
    CountDots(n, DotIndex(currentIndex, isMobileView));
  }

  /** The first pass of the render: the display value of every slide,
      collected one slide at a time before anything is written. */
  method CollectSlideChanges(n: nat, currentIndex: int, slidesPerView: nat) returns (changes: seq<bool>)
    ensures changes == Window(n, currentIndex, slidesPerView)
  {
    changes := [];
    for i := 0 to n
      invariant changes == Window(i, currentIndex, slidesPerView)
    {
      changes := changes + [Shows(currentIndex, slidesPerView, i)];
    }
  }

  // ---------------------------------------------------------------------
  // Index arithmetic of the navigation handlers

  /** `nextSlide`: advance by a window, back to 0 at or past the end. */
  function NextIndex(currentIndex: int, n: nat, slidesPerView: nat): (next: int)
    ensures n >= 1 && currentIndex >= 0 ==> 0 <= next < n
    ensures next == 0 || next == currentIndex + slidesPerView
  {
    if currentIndex + slidesPerView >= n then 0 else currentIndex + slidesPerView
  }

  /** `prevSlide`: step back by a window; below 0 wrap to `n - slidesPerView`,
      which is negative when there are fewer slides than a window. */
  function PrevIndex(currentIndex: int, n: nat, slidesPerView: nat): (prev: int)
    ensures 0 <= currentIndex < n && 1 <= slidesPerView <= n ==> 0 <= prev < n
    ensures prev >= 0 <==> currentIndex >= slidesPerView || slidesPerView <= n
  {
    if currentIndex - slidesPerView < 0 then n - slidesPerView else currentIndex - slidesPerView
  }

  /** `goToSlide(k)`: on mobile the index is `k`; on desktop it is `2k`,
      pinned to `n - 2` when that would reach past the end. */
  function GoToIndex(k: int, n: nat, isMobileView: bool): (target: int)
    ensures isMobileView ==> target == k
    ensures 0 <= k < n ==> 0 <= target < n
    ensures !isMobileView && 2 * k < n ==> target == 2 * k
    ensures !isMobileView && 2 * k >= n ==> target == n - 2
  {
    if isMobileView then k
    else if k * 2 >= n then n - 2
    else k * 2
  }

  /** Stepping forward and then back returns to the start unless the forward
      step wrapped, and stepping back then forward unless the back step did. */
  lemma NextThenPrev(currentIndex: int, n: nat, slidesPerView: nat)
    requires 0 <= currentIndex && currentIndex + slidesPerView < n
    ensures PrevIndex(NextIndex(currentIndex, n, slidesPerView), n, slidesPerView) == currentIndex
  {
  }

  lemma PrevThenNext(currentIndex: int, n: nat, slidesPerView: nat)
    requires slidesPerView <= currentIndex < n
    ensures NextIndex(PrevIndex(currentIndex, n, slidesPerView), n, slidesPerView) == currentIndex
  {
  }

  /** Six slides on desktop: 0, 2, 4 and back to 0; on mobile each step adds
      one and the sixth step wraps. */
  lemma SixSlideCycles()
    ensures NextIndex(0, 6, SlidesPerView(false)) == 2
    ensures NextIndex(2, 6, SlidesPerView(false)) == 4
    ensures NextIndex(4, 6, SlidesPerView(false)) == 0
    ensures forall i :: 0 <= i < 5 ==> NextIndex(i, 6, SlidesPerView(true)) == i + 1
    ensures NextIndex(5, 6, SlidesPerView(true)) == 0
  {
  }

  /** With an odd number of slides on desktop, the dot of the middle slide
      pins the index to `n - 1`, where the window holds a single slide. */
  lemma OddDesktopSingleSlideWindow(n: nat)
    requires n >= 3 && n % 2 == 1
    ensures GoToIndex((n - 1) / 2, n, false) == n - 1
    ensures CountTrue(Window(n, GoToIndex((n - 1) / 2, n, false), SlidesPerView(false))) == 1
  {
    CountWindow(n, n - 1, 2);
  }

  /** On desktop, the dot highlighted after a dot click is the clicked one
      exactly when twice its index is below the slide count. */
  lemma DesktopDotAfterGoTo(k: int, n: nat)
    requires 0 <= k < n
    ensures DotIndex(GoToIndex(k, n, false), false) == k <==> 2 * k < n
  {
  }

  /** Finding: with one slide on desktop, `prevSlide` sets the index to -1;
      the slide stays visible but no dot is highlighted. */
  lemma PrevSlideOneSlideDesktop()
    ensures PrevIndex(0, 1, SlidesPerView(false)) == -1
    ensures Window(1, -1, SlidesPerView(false)) == [true]
    ensures CountTrue(Dots(1, DotIndex(-1, false))) == 0
  {
    assert Dots(1, DotIndex(-1, false)) == [false];
  }

  /** The wrap of `prevSlide` pinned at 0 when a window is wider than the
      whole carousel: the index stays in range for every slide count. */
  function PrevIndexCorrected(currentIndex: int, n: nat, slidesPerView: nat): (prev: int)
    ensures 0 <= currentIndex < n && slidesPerView >= 1 ==> 0 <= prev < n
    ensures 0 <= currentIndex && slidesPerView <= n ==> prev == PrevIndex(currentIndex, n, slidesPerView)
  {
    if currentIndex - slidesPerView >= 0 then currentIndex - slidesPerView
    else if n >= slidesPerView then n - slidesPerView
    else 0
  }

  // ---------------------------------------------------------------------
  // The controller

  class Carousel {
    /** Number of slides, fixed when the carousel is set up. */
    const n: nat
    /** `display` of each slide: `true` for `block`, `false` for `none`. */
    const slideShown: array<bool>
    /** Highlight of each navigation dot; there is one dot per slide. */
    const dotLit: array<bool>
    var currentIndex: int
    /** Cached classification, refreshed only by a settled resize. */
    var isMobileView: bool
    /** The stored interval handle names a running interval. */
    var timerActive: bool
    /** Running intervals whose handle was overwritten and is lost. */
    var strayTimers: nat
    /** A debounced resize is scheduled and has not yet fired. */
    var resizePending: bool

    ghost predicate Valid()
      reads this
    {
      slideShown.Length == n && dotLit.Length == n && slideShown != dotLit
    }

    /** Slides and dots show what the render rule gives for the state. */
    ghost predicate Rendered()
      reads this, slideShown, dotLit
      requires Valid()
    {
      && slideShown[..] == Window(n, currentIndex, SlidesPerView(isMobileView))
      && dotLit[..] == Dots(n, DotIndex(currentIndex, isMobileView))
    }

    predicate IndexInRange()
      reads this
    {
      0 <= currentIndex < n
    }

    /** Auto-advance intervals that are running. */
    function LiveTimers(): nat
      reads this
    {
      strayTimers + if timerActive then 1 else 0
    }

    /** Set-up: dots with the first one highlighted, the classification of
        the initial width, a first render and one auto-advance interval. */
    constructor (slideCount: nat, width: int)
      ensures Valid() && fresh(slideShown) && fresh(dotLit)
      ensures n == slideCount && currentIndex == 0
      ensures isMobileView == IsMobileWidth(width)
      ensures Rendered()
      ensures timerActive && strayTimers == 0 && !resizePending
    {
      n := slideCount;
      slideShown := new bool[slideCount];
      dotLit := new bool[slideCount](i => i == 0);
      currentIndex := 0;
      isMobileView := IsMobileWidth(width);
      timerActive := false;
      strayTimers := 0;
      resizePending := false;
      new;
      Render();
      StartAutoSlide();
    }

    /** `updateCarousel`: compute every slide's display first, then write
        them, then highlight the dot for the index. */
    method Render()
      requires Valid()
      modifies slideShown, dotLit
      ensures Rendered()
    {
      var changes := CollectSlideChanges(n, currentIndex, SlidesPerView(isMobileView));
      for i := 0 to n
        invariant forall j :: 0 <= j < i ==> slideShown[j] == changes[j]
      {
        slideShown[i] := changes[i];
      }
      assert slideShown[..] == changes;
      var dotIndex := DotIndex(currentIndex, isMobileView);
      for i := 0 to n
        invariant slideShown[..] == changes
        invariant forall j :: 0 <= j < i ==> dotLit[j] == (j == dotIndex)
      {
        dotLit[i] := i == dotIndex;
      }
      assert dotLit[..] == Dots(n, dotIndex);
    }

    /** `startAutoSlide`: a new interval whose handle replaces the stored
        one; an interval the old handle still named keeps running. */
    method StartAutoSlide()
      modifies this
      ensures timerActive
      ensures strayTimers == old(strayTimers) + if old(timerActive) then 1 else 0
      ensures currentIndex == old(currentIndex) && isMobileView == old(isMobileView)
      ensures resizePending == old(resizePending)
    {
      if timerActive {
        strayTimers := strayTimers + 1;
      }
      timerActive := true;
    }

    /** `resetAutoSlide`: clear the stored interval, then start a new one. */
    method ResetAutoSlide()
      modifies this
      ensures timerActive && strayTimers == old(strayTimers)
      ensures currentIndex == old(currentIndex) && isMobileView == old(isMobileView)
      ensures resizePending == old(resizePending)
    {
      timerActive := false;
      StartAutoSlide();
    }

    /** A dot click: jump to the slide of dot `k`, render, restart the timer. */
    method GoToSlide(k: int)
      requires Valid() && 0 <= k < n
      modifies this, slideShown, dotLit
      ensures Valid() && Rendered()
      ensures currentIndex == GoToIndex(k, n, isMobileView)
      ensures IndexInRange()
      ensures isMobileView == old(isMobileView) && resizePending == old(resizePending)
      ensures timerActive && strayTimers == old(strayTimers)
    {
      if isMobileView {
        currentIndex := k;
      } else {
        currentIndex := k * 2;
        if currentIndex >= n {
          currentIndex := n - 2;
        }
      }
      Render();
      ResetAutoSlide();
    }

    /** The next arrow and every auto-advance tick. */
    method NextSlide()
      requires Valid()
      modifies this, slideShown, dotLit
      ensures Valid() && Rendered()
      ensures currentIndex == NextIndex(old(currentIndex), n, SlidesPerView(isMobileView))
      ensures n >= 1 && old(currentIndex) >= 0 ==> IndexInRange()
      ensures isMobileView == old(isMobileView) && resizePending == old(resizePending)
      ensures timerActive && strayTimers == old(strayTimers)
    {
      var slidesPerView := SlidesPerView(isMobileView);
      currentIndex := currentIndex + slidesPerView;
      if currentIndex >= n {
        currentIndex := 0;
      }
      Render();
      ResetAutoSlide();
    }

    /** The previous arrow. */
    method PrevSlide()
      requires Valid()
      modifies this, slideShown, dotLit
      ensures Valid() && Rendered()
      ensures currentIndex == PrevIndex(old(currentIndex), n, SlidesPerView(isMobileView))
      ensures old(IndexInRange()) && SlidesPerView(isMobileView) <= n ==> IndexInRange()
      ensures isMobileView == old(isMobileView) && resizePending == old(resizePending)
      ensures timerActive && strayTimers == old(strayTimers)
    {
      var slidesPerView := SlidesPerView(isMobileView);
      currentIndex := currentIndex - slidesPerView;
      if currentIndex < 0 {
        currentIndex := n - slidesPerView;
      }
      Render();
      ResetAutoSlide();
    }

    /** A raw resize event: cancel any scheduled settle and schedule one. */
    method Resize()
      modifies this
      ensures resizePending
      ensures currentIndex == old(currentIndex) && isMobileView == old(isMobileView)
      ensures timerActive == old(timerActive) && strayTimers == old(strayTimers)
    {
      resizePending := true;
    }

    /** The debounced resize body: reclassify the width and re-render only
        when the classification flipped; the index is never touched. */
    method SettleResize(width: int)
      requires Valid() && resizePending
      modifies this, slideShown, dotLit
      ensures Valid() && !resizePending
      ensures isMobileView == IsMobileWidth(width)
      ensures currentIndex == old(currentIndex)
      ensures timerActive == old(timerActive) && strayTimers == old(strayTimers)
      ensures old(isMobileView) != isMobileView ==> Rendered()
      ensures old(isMobileView) == isMobileView ==>
        slideShown[..] == old(slideShown[..]) && dotLit[..] == old(dotLit[..])
      ensures old(Rendered()) ==> Rendered()
    {
      resizePending := false;
      var wasMobile := isMobileView;
      isMobileView := IsMobileWidth(width);
      if wasMobile != isMobileView {
        Render();
      }
    }

    /** Pointer enters the slides: clear the stored interval. */
    method MouseEnter()
      modifies this
      ensures !timerActive && strayTimers == old(strayTimers)
      ensures LiveTimers() == old(strayTimers)
      ensures currentIndex == old(currentIndex) && isMobileView == old(isMobileView)
      ensures resizePending == old(resizePending)
    {
      timerActive := false;
    }

    /** Pointer leaves the slides: start an interval without clearing the
        stored one, so a running interval is orphaned. */
    method MouseLeave()
      modifies this
      ensures timerActive
      ensures strayTimers == old(strayTimers) + if old(timerActive) then 1 else 0
      ensures currentIndex == old(currentIndex) && isMobileView == old(isMobileView)
      ensures resizePending == old(resizePending)
    {
      StartAutoSlide();
    }

    /** Pointer leaves the slides, resuming through the clear-then-start
        pair: exactly the intervals that ran before hovering run again. */
    method MouseLeaveCorrected()
      modifies this
      ensures timerActive && strayTimers == old(strayTimers)
      ensures currentIndex == old(currentIndex) && isMobileView == old(isMobileView)
      ensures resizePending == old(resizePending)
    {
      ResetAutoSlide();
    }
  }

  /** Finding: while the pointer rests on the slides, a dot activated from
      the keyboard restarts the interval; leaving then starts a second one
      over the first, and hovering again pauses only one of the two. */
  method HoveredNavigationLeaksTimer() returns (runningWhileHovered: nat)
    ensures runningWhileHovered == 1
  {
    var c := new Carousel(3, 1024);
    c.MouseEnter();
    c.GoToSlide(1);
    c.MouseLeave();
    c.MouseEnter();
    runningWhileHovered := c.LiveTimers();
  }

  /** The same sequence with the corrected mouse-leave handler: hovering
      again pauses auto-advance completely. */
  method HoveredNavigationCorrected() returns (runningWhileHovered: nat)
    ensures runningWhileHovered == 0
  {
    var c := new Carousel(3, 1024);
    c.MouseEnter();
    c.GoToSlide(1);
    c.MouseLeaveCorrected();
    c.MouseEnter();
    runningWhileHovered := c.LiveTimers();
  }
}

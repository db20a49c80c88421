/**
 The client-logo carousel of the landing page: a fixed list of eight client
 logos shown a few at a time, a current-slide index that the arrows, the dots,
 swipes and an autoplay timer move, and a slide width that follows the viewport.

 The component's React state and refs become one immutable `Carousel` record;
 every event handler, timer callback and effect becomes a pure transition
 `Step(state, event)`.
 */
module Clients {
  import opened Slicing

  /** One client logo: the client's name and the path of its image. */
  datatype Client = Client(name: string, logo: string)

  /** The clients shown, in display order. */
  const Roster: seq<Client> := [
    Client("Piso 40 Restaurant", "/images/piso40.png"),
    Client("Vie", "/images/vie.jpeg"),
    Client("Tsunami", "/images/tsunami.jpeg"),
    Client("Antonino Ristorante", "/images/antonino.png"),
    Client("La Piccolina", "/images/piccolina.jpeg"),
    Client("Chillout Resto", "/images/chillout.png"),
    Client("Banco Santander", "/images/santander-new.png"),
    Client("Shark Club", "/images/sharkclub.png")
  ]

  /** Viewport widths (CSS pixels) at which the layout changes tier. */
  const TabletWidth := 640
  const DesktopWidth := 1024

  /** A horizontal touch movement must exceed this many pixels to count as a swipe. */
  const SwipeThreshold: real := 50.0

  predicate IsMobileWidth(width: int) { width < TabletWidth }

  predicate IsTabletWidth(width: int) { TabletWidth <= width < DesktopWidth }

  /** Logos per slide for the current tier flags: three on mobile and tablet,
      four on desktop. */
  function GetItemsPerSlide(isMobile: bool, isTablet: bool): (k: int)
    ensures k == 3 || k == 4
    ensures k == 4 <==> !isMobile && !isTablet
  {
    if isMobile then 3
    else if isTablet then 3
    else 4
  }

  /** From a viewport width to logos per slide and slides: every width
      below the desktop breakpoint shows three logos on three slides, every
      other width four logos on two slides. */
  lemma WidthTiers(width: int)
    ensures var k := GetItemsPerSlide(IsMobileWidth(width), IsTabletWidth(width));
      && (k == 3 <==> width < DesktopWidth)
      && (k == 4 <==> width >= DesktopWidth)
      && SlideCount(|Roster|, k) == (if width < DesktopWidth then 3 else 2)
      && SlideCount(|Roster|, k) >= 1
  {
    var k := GetItemsPerSlide(IsMobileWidth(width), IsTabletWidth(width));
    SlideCountUnique(|Roster|, k, if k == 3 then 3 else 2);
  }

  /** `nextSlide`: one slide on, from the last slide back to the first. */
  function Next(current: int, total: int): (r: int)
    ensures 0 <= current < total ==> 0 <= r < total
    ensures 0 <= current < total ==> r == (current + 1) % total
    ensures current == total - 1 ==> r == 0
  {
    if current == total - 1 then 0 else current + 1
  }

  /** `prevSlide`: one slide back, from the first slide round to the last. */
  function Prev(current: int, total: int): (r: int)
    ensures 0 <= current < total ==> 0 <= r < total
    ensures 0 <= current < total ==> r == (current - 1) % total
    ensures current == 0 ==> r == total - 1
  {
    if current == 0 then total - 1 else current - 1
  }

  /** Forward and back undo each other on every in-range index. */
  lemma NextPrevInverse(current: int, total: int)
    requires 0 <= current < total
    ensures Prev(Next(current, total), total) == current
    ensures Next(Prev(current, total), total) == current
  {
  }

  /** The direction a finished touch gesture moves the carousel. */
  datatype Swipe = Forward | Backward | NoSwipe

  /** `handleTouchEnd`'s decision on `diff = startX - endX`: beyond the
      threshold a positive difference (finger moved right to left) goes
      forward and a negative one back; within it nothing happens. */
  function SwipeDecision(startX: real, endX: real): (d: Swipe)
    ensures d == Forward <==> startX - endX > SwipeThreshold
    ensures d == Backward <==> startX - endX < -SwipeThreshold
    ensures d == NoSwipe <==> -SwipeThreshold <= startX - endX <= SwipeThreshold
  {
    var diff := startX - endX;
    var magnitude := if diff < 0.0 then -diff else diff;
    if magnitude > SwipeThreshold then
      (if diff > 0.0 then Forward else Backward)
    else NoSwipe
  }

  /** The carousel's state: the slide shown, whether autoplay runs, the two
      viewport-tier flags, and the two touch-position registers. */
  datatype Carousel = Carousel(
    currentSlide: int,
    autoplay: bool,
    isMobile: bool,
    isTablet: bool,
    touchStartX: real,
    touchEndX: real)
  {
    function ItemsPerSlide(): int { GetItemsPerSlide(isMobile, isTablet) }

    function TotalSlides(): nat { SlideCount(|Roster|, ItemsPerSlide()) }

    /** The slide index names one of the slides. */
    predicate Valid() { 0 <= currentSlide < TotalSlides() }
  }

  /** The state before any effect has run: slide 0, autoplay on, both tier
      flags off (so four logos per slide), both touch registers at 0. */
  const Initial := Carousel(0, true, false, false, 0.0, 0.0)

  /** What can happen to the carousel. `ResumeTimer` is one of the 5-second
      timers an arrow or dot click schedules, firing. */
  datatype Event =
    | Tick
    | PrevArrow
    | NextArrow
    | Dot(index: int)
    | ResumeTimer
    | MouseEnter
    | MouseLeave
    | Focus
    | Blur
    | TouchStart(x: real)
    | TouchMove(x: real)
    | TouchEnd
    | Resize(width: int)

  /** Only the dots that are drawn can be clicked: one per slide. */
  predicate Enabled(s: Carousel, e: Event)
  {
    e.Dot? ==> 0 <= e.index < s.TotalSlides()
  }

  function NextSlide(s: Carousel): (r: Carousel)
    ensures r.(currentSlide := s.currentSlide) == s
    ensures s.Valid() ==> r.Valid() && r.currentSlide == (s.currentSlide + 1) % s.TotalSlides()
  {
    s.(currentSlide := Next(s.currentSlide, s.TotalSlides()))
  }

  function PrevSlide(s: Carousel): (r: Carousel)
    ensures r.(currentSlide := s.currentSlide) == s
    ensures s.Valid() ==> r.Valid() && r.currentSlide == (s.currentSlide - 1) % s.TotalSlides()
  {
    s.(currentSlide := Prev(s.currentSlide, s.TotalSlides()))
  }

  /** `checkScreenSize` on its own: the tier flags follow the width, and
      nothing else changes. */
  function ApplyWidth(s: Carousel, width: int): (r: Carousel)
    ensures r.ItemsPerSlide() == (if width < DesktopWidth then 3 else 4)
    ensures r.(isMobile := s.isMobile, isTablet := s.isTablet) == s
  {
    s.(isMobile := IsMobileWidth(width), isTablet := IsTabletWidth(width))
  }

  /** A width reading together with the effect keyed on `itemsPerSlide`:
      when the logos per slide change, the carousel goes back to slide 0. */
  function ResizeTo(s: Carousel, width: int): (r: Carousel)
    ensures r.ItemsPerSlide() != s.ItemsPerSlide() ==> r.currentSlide == 0
    ensures r.ItemsPerSlide() == s.ItemsPerSlide() ==> r.currentSlide == s.currentSlide
    ensures r.ItemsPerSlide() == (if width < DesktopWidth then 3 else 4)
    ensures r.TotalSlides() == (if width < DesktopWidth then 3 else 2)
    ensures r.autoplay == s.autoplay && r.touchStartX == s.touchStartX && r.touchEndX == s.touchEndX
    ensures s.Valid() ==> r.Valid()
  {
    WidthTiers(width);
    var t := ApplyWidth(s, width);
    if t.ItemsPerSlide() != s.ItemsPerSlide() then t.(currentSlide := 0) else t
  }

  /** `handleTouchEnd`: the gesture's difference decides between forward,
      back and nothing. The touch registers are left as they are. */
  function TouchEnded(s: Carousel): Carousel
  {
    match SwipeDecision(s.touchStartX, s.touchEndX)
    case Forward => NextSlide(s)
    case Backward => PrevSlide(s)
    case NoSwipe => s
  }

  /** One event applied to the carousel. */
  function Step(s: Carousel, e: Event): Carousel
  {
    match e
    case Tick => if s.autoplay then NextSlide(s) else s
    case PrevArrow => PrevSlide(s).(autoplay := false)
    case NextArrow => NextSlide(s).(autoplay := false)
    case Dot(i) => s.(currentSlide := i, autoplay := false)
    case ResumeTimer => s.(autoplay := true)
    case MouseEnter => s.(autoplay := false)
    case MouseLeave => s.(autoplay := true)
    case Focus => s.(autoplay := false)
    case Blur => s.(autoplay := true)
    case TouchStart(x) => s.(touchStartX := x)
    case TouchMove(x) => s.(touchEndX := x)
    case TouchEnd => TouchEnded(s)
    case Resize(w) => ResizeTo(s, w)
  }

  /** A run of events, applied in order. */
  function Run(s: Carousel, events: seq<Event>): Carousel
    decreases |events|
  {
    if |events| == 0 then s else Run(Step(s, events[0]), events[1..])
  }

  /** Every event in the run can happen at the point it arrives. */
  predicate Admissible(s: Carousel, events: seq<Event>)
    decreases |events|
  {
    |events| == 0 || (Enabled(s, events[0]) && Admissible(Step(s, events[0]), events[1..]))
  }

  /** The component as mounted in a viewport of the given width: the first
      width reading has been taken and the reset effect has run. */
  function Mount(width: int): (r: Carousel)
    ensures r.Valid() && r.currentSlide == 0 && r.autoplay
    ensures r.ItemsPerSlide() == (if width < DesktopWidth then 3 else 4)
  {
    ResizeTo(Initial, width)
  }

  /** Every admissible event keeps the slide index in range. */
  lemma StepPreservesValid(s: Carousel, e: Event)
    requires s.Valid() && Enabled(s, e)
    ensures Step(s, e).Valid()
  {
    if e.TouchEnd? {
      match SwipeDecision(s.touchStartX, s.touchEndX)
      case Forward =>
      case Backward =>
      case NoSwipe =>
    }
  }

  /** Any admissible run of events keeps the slide index in range. */
  lemma {:induction false} RunPreservesValid(s: Carousel, events: seq<Event>)
    requires s.Valid() && Admissible(s, events)
    ensures Run(s, events).Valid()
    decreases |events|
  {
    if |events| > 0 {
      StepPreservesValid(s, events[0]);
      RunPreservesValid(Step(s, events[0]), events[1..]);
    }
  }

  /** The arrows move one slide with wrap-around and pause autoplay; a dot
      jumps to its slide and pauses autoplay. */
  lemma ClickNavigation(s: Carousel, i: int)
    requires s.Valid()
    ensures var r := Step(s, NextArrow);
      r.currentSlide == (s.currentSlide + 1) % s.TotalSlides() && !r.autoplay
    ensures var r := Step(s, PrevArrow);
      r.currentSlide == (s.currentSlide - 1) % s.TotalSlides() && !r.autoplay
    ensures 0 <= i < s.TotalSlides() ==>
      Step(s, Dot(i)).currentSlide == i && !Step(s, Dot(i)).autoplay && Step(s, Dot(i)).Valid()
  {
  }

  /** A timer tick moves the carousel exactly when autoplay is on, and then
      one slide forward. */
  lemma TickMovesOnlyWhenPlaying(s: Carousel)
    requires s.Valid()
    ensures Step(s, Tick).currentSlide != s.currentSlide <==> s.autoplay
    ensures s.autoplay ==> Step(s, Tick).currentSlide == (s.currentSlide + 1) % s.TotalSlides()
    ensures !s.autoplay ==> Step(s, Tick) == s
  {
    assert s.TotalSlides() >= 2 by {
      WidthTiers(if s.ItemsPerSlide() == 3 then 0 else DesktopWidth);
    }
  }

  /** Hovering and focusing pause autoplay, leaving and blurring (and a
      click's resume timer) restart it; none of them moves the carousel or
      changes anything else. */
  lemma PauseResumeOnlyToggleAutoplay(s: Carousel)
    ensures Step(s, MouseEnter) == s.(autoplay := false)
    ensures Step(s, Focus) == s.(autoplay := false)
    ensures Step(s, MouseLeave) == s.(autoplay := true)
    ensures Step(s, Blur) == s.(autoplay := true)
    ensures Step(s, ResumeTimer) == s.(autoplay := true)
  {
  }

  /** While autoplay is paused, any number of ticks leaves the carousel as
      it was. */
  lemma {:induction false} PausedTicksIdle(s: Carousel, events: seq<Event>)
    requires !s.autoplay
    requires forall i :: 0 <= i < |events| ==> events[i] == Tick
    ensures Run(s, events) == s
    decreases |events|
  {
    if |events| > 0 {
      assert events[0] == Tick;
      PausedTicksIdle(s, events[1..]);
    }
  }

  /** The touch registers: a touch start records only the start position, a
      touch move records only the end position. */
  lemma TouchRegisters(s: Carousel, x: real)
    ensures Step(s, TouchStart(x)) == s.(touchStartX := x)
    ensures Step(s, TouchMove(x)) == s.(touchEndX := x)
  {
  }

  /** The end of a gesture: past the threshold forward or back by one slide,
      otherwise no move; only the slide index can change. */
  lemma SwipeNavigation(s: Carousel)
    requires s.Valid()
    ensures var r := Step(s, TouchEnd);
      && r.(currentSlide := s.currentSlide) == s
      && r.Valid()
      && (s.touchStartX - s.touchEndX > SwipeThreshold ==>
            r.currentSlide == (s.currentSlide + 1) % s.TotalSlides())
      && (s.touchStartX - s.touchEndX < -SwipeThreshold ==>
            r.currentSlide == (s.currentSlide - 1) % s.TotalSlides())
      && (-SwipeThreshold <= s.touchStartX - s.touchEndX <= SwipeThreshold ==>
            r.currentSlide == s.currentSlide)
  {
  }

  /** A tap (touch start then touch end, no move) is judged against the end
      position of the previous gesture, since a touch start does not clear
      it: the tap navigates whenever it lands more than the threshold away
      from where the last move ended. */
  lemma TapUsesPreviousEnd(s: Carousel, x: real)
    requires s.Valid()
    ensures var r := Run(s, [TouchStart(x), TouchEnd]);
      && (r.currentSlide != s.currentSlide <==>
            (x - s.touchEndX > SwipeThreshold || x - s.touchEndX < -SwipeThreshold))
      && (x - s.touchEndX > SwipeThreshold ==>
            r.currentSlide == (s.currentSlide + 1) % s.TotalSlides())
      && (x - s.touchEndX < -SwipeThreshold ==>
            r.currentSlide == (s.currentSlide - 1) % s.TotalSlides())
  {
    var t := Step(s, TouchStart(x));
    var events := [TouchStart(x), TouchEnd];
    assert events[1..] == [TouchEnd];
    assert [TouchEnd][1..] == [];
    assert Run(t, [TouchEnd]) == Run(Step(t, TouchEnd), []);
    assert Run(s, events) == Step(t, TouchEnd);
    assert s.TotalSlides() >= 2 by {
      WidthTiers(if s.ItemsPerSlide() == 3 then 0 else DesktopWidth);
    }
  }

  /** So the very first tap on a freshly mounted carousel, anywhere right of
      the 50-pixel mark, already moves it one slide forward. */
  lemma FirstTapNavigates(width: int, x: real)
    requires x > SwipeThreshold
    ensures Run(Mount(width), [TouchStart(x), TouchEnd]).currentSlide == 1
  {
    TapUsesPreviousEnd(Mount(width), x);
    WidthTiers(width);
  }

  /** Reading a new width without the reset effect can leave the index past
      the last slide: slide 2 of 3 on a tablet has no counterpart once the
      desktop layout shows only 2 slides. `ResizeTo` applies the reset in
      the same step, so the model never exposes this state. */
  lemma TransientIndexOutOfRange()
    ensures var s := Carousel(2, true, false, true, 0.0, 0.0);
      s.Valid() && !ApplyWidth(s, DesktopWidth).Valid() && ResizeTo(s, DesktopWidth).currentSlide == 0
  {
    var s := Carousel(2, true, false, true, 0.0, 0.0);
    SlideCountUnique(|Roster|, 3, 3);
    SlideCountUnique(|Roster|, 4, 2);
  }

  /** The roster cut into slides at either tier: the slides joined give the
      roster back; with three per slide there are three slides, the last
      holding two logos; with four there are two full slides. */
  lemma RosterSlides()
    ensures Concat(Slides(Roster, 3)) == Roster && Concat(Slides(Roster, 4)) == Roster
    ensures |Slides(Roster, 3)| == 3 && |Slides(Roster, 3)[2]| == 2
    ensures |Slides(Roster, 3)[0]| == 3 && |Slides(Roster, 3)[1]| == 3
    ensures |Slides(Roster, 4)| == 2 && |Slides(Roster, 4)[0]| == 4 && |Slides(Roster, 4)[1]| == 4
  {
    SlidesPartition(Roster, 3);
    SlidesPartition(Roster, 4);
    SlideCountUnique(|Roster|, 3, 3);
    SlideCountUnique(|Roster|, 4, 2);
    SlideSizes(Roster, 3);
    SlideSizes(Roster, 4);
  }
}

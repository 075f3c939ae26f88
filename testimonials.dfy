/** The Testimonials section: one expanded testimonial with a row of tabs
    below it, one tab per testimonial, rotated every ten seconds; clicking a
    tab makes it active and restarts the countdown. The list comes from a
    property and its length is captured once, at mount. */
module TestimonialsSection {
  import opened Rotation
  import opened Selector

  /** A testimonial, identified by its id and author; the quote, role, rating
      and initials are presentation and play no part in the rotation. */
  datatype Testimonial = Testimonial(id: string, name: string)

  /** The list used when the section is given none. */
  const DefaultTestimonials: seq<Testimonial> := [
    Testimonial("1", "Jesse Heffernan"),
    Testimonial("2", "James Chen"),
    Testimonial("3", "Emily Rodriguez"),
    Testimonial("4", "Michael Thompson")
  ]

  /** Milliseconds between automatic advances. */
  const CycleInterval: nat := 10000

  /** First render followed by the mount effect. The modulus is the list's
      length at this moment and stays fixed for the instance's lifetime. */
  method MountSection(testimonials: seq<Testimonial>) returns (s: RotatingSelector)
    requires 1 <= |testimonials|
    ensures fresh(s) && s.Valid()
    ensures s.n == |testimonials| && s.interval == CycleInterval
    ensures s.View() == View(0, 0, Some(CycleInterval)) && |s.live| == 1
  {
    s := new RotatingSelector(|testimonials|, CycleInterval);
    s.Mount();
  }

  /** What one render shows: the expanded testimonial and, per tab, whether it
      has the active styling. */
  datatype Frame = Frame(shown: Testimonial, tabs: seq<bool>)

  /** `activeTestimonial = testimonials[activeIndex]` and the tab row's
      `index === activeIndex`. */
  function Render(testimonials: seq<Testimonial>, active: nat): (f: Frame)
    requires active < |testimonials|
    ensures f.shown == testimonials[active]
    ensures |f.tabs| == |testimonials| && f.tabs[active]
    ensures forall i :: 0 <= i < |testimonials| && f.tabs[i] ==> testimonials[i] == f.shown
  {
    Frame(testimonials[active], TabFlags(|testimonials|, active))
  }

  /** The expanded testimonial is the one whose tab is highlighted, and
      exactly one tab is highlighted. */
  lemma ShownMatchesHighlightedTab(testimonials: seq<Testimonial>, active: nat)
    requires active < |testimonials|
    ensures var f := Render(testimonials, active);
      |f.tabs| == |testimonials| && CountActive(f.tabs) == 1 &&
      f.tabs[active] && f.shown == testimonials[active] &&
      forall i :: 0 <= i < |testimonials| && f.tabs[i] ==> i == active
  {
    ExactlyOneTabActive(|testimonials|, active);
  }

  /** The render's unguarded lookup stays in range: whatever sequence of
      mounts, ticks, tab clicks and cleanups happens after the first render,
      the active index is a position in the list captured at mount. */
  lemma LookupStaysInRange(testimonials: seq<Testimonial>, es: seq<Event>)
    requires 1 <= |testimonials| && ValidClicks(es, |testimonials|)
    ensures WellFormed(Replay(Initial(0), es, |testimonials|, CycleInterval), |testimonials|)
    ensures Replay(Initial(0), es, |testimonials|, CycleInterval).active < |testimonials|
  {
    ReplayKeepsWellFormed(Initial(0), es, |testimonials|, CycleInterval);
  }

  /** Left alone, the four default testimonials are shown in order, one step
      every period, and the last one is followed by the first. */
  lemma DefaultsCycleAndWrap(t: nat)
    ensures |DefaultTestimonials| == 4
    ensures RunUntil(Rearmed(Initial(0), CycleInterval), |DefaultTestimonials|, CycleInterval, t).active
            == (t / CycleInterval) % 4
    ensures RunUntil(Rearmed(Initial(0), CycleInterval), |DefaultTestimonials|, CycleInterval, t).active == 3 ==>
            RunUntil(Rearmed(Initial(0), CycleInterval), |DefaultTestimonials|, CycleInterval, t + CycleInterval).active == 0
  {
    RotationSinceMount(0, |DefaultTestimonials|, CycleInterval, t);
    RotationSinceMount(0, |DefaultTestimonials|, CycleInterval, t + CycleInterval);
    ModUnique(t + CycleInterval, CycleInterval, t / CycleInterval + 1, t % CycleInterval);
  }

  /** The testimonial on display for a mounted instance. */
  function ActiveTestimonial(testimonials: seq<Testimonial>, s: RotatingSelector): (t: Testimonial)
    reads s
    requires s.Valid() && s.n == |testimonials|
    ensures t in testimonials
    ensures t == Render(testimonials, s.activeIndex).shown
  {
    testimonials[s.activeIndex]
  }
}

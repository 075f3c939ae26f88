/** The Services section: three service cards, rotated every ten seconds;
    clicking a card makes it the active one and restarts the countdown. */
module ServicesSection {
  import opened Rotation
  import opened Selector

  /** A card, identified by its title; the rest of a card's content is
      presentation and plays no part in the rotation. */
  datatype Service = Service(title: string)

  /** The fixed card list, in render order. */
  const Services: seq<Service> := [
    Service("Web Design"),
    Service("Web Development"),
    Service("Digital Strategy")
  ]

  /** Milliseconds between automatic advances. */
  const CycleInterval: nat := 10000

  /** First render followed by the mount effect: card 0 is active and exactly
      one interval is live, first due one period after mounting. */
  method MountSection() returns (s: RotatingSelector)
    ensures fresh(s) && s.Valid()
    ensures s.n == |Services| == 3 && s.interval == CycleInterval
    ensures s.View() == View(0, 0, Some(CycleInterval)) && |s.live| == 1
  {
    s := new RotatingSelector(|Services|, CycleInterval);
    s.Mount();
  }

  /** Left alone, the cards light up in order, one step every period: at time
      `t` after mounting the active card is the number of whole periods
      elapsed, modulo 3, so card 2 is followed by card 0. */
  lemma CardsCycleAndWrap(t: nat)
    ensures RunUntil(Rearmed(Initial(0), CycleInterval), |Services|, CycleInterval, t).active
            == (t / CycleInterval) % 3
    ensures RunUntil(Rearmed(Initial(0), CycleInterval), |Services|, CycleInterval, t).active == 2 ==>
            RunUntil(Rearmed(Initial(0), CycleInterval), |Services|, CycleInterval, t + CycleInterval).active == 0
  {
    RotationSinceMount(0, |Services|, CycleInterval, t);
    RotationSinceMount(0, |Services|, CycleInterval, t + CycleInterval);
    ModUnique(t + CycleInterval, CycleInterval, t / CycleInterval + 1, t % CycleInterval);
  }

  /** A click between the first and second tick: card 1 is active when card
      `i` is clicked at time `c`. Card `i` stays active past the old due time,
      and the next tick comes a full period after the click. */
  lemma ClickPostponesNextTick(c: nat, i: nat)
    requires CycleInterval < c < 2 * CycleInterval && i < |Services|
    ensures var before := RunUntil(Rearmed(Initial(0), CycleInterval), |Services|, CycleInterval, c);
      var clicked := Selected(before, i, CycleInterval);
      before.active == 1 &&
      RunUntil(clicked, |Services|, CycleInterval, 2 * CycleInterval) == View(2 * CycleInterval, i, Some(c + CycleInterval)) &&
      RunUntil(clicked, |Services|, CycleInterval, c + CycleInterval) == View(c + CycleInterval, Next(i, |Services|), Some(c + 2 * CycleInterval))
  {
    var mounted := Rearmed(Initial(0), CycleInterval);
    RunUntilClosedForm(mounted, |Services|, CycleInterval, c);
    FireCountIsQuotient(CycleInterval, CycleInterval, c);
    ModUnique(c - CycleInterval, CycleInterval, 0, c - CycleInterval);
    var before := RunUntil(mounted, |Services|, CycleInterval, c);
    assert before == View(c, 1, Some(2 * CycleInterval));
    SelectRestartsCountdown(before, i, |Services|, CycleInterval, 2 * CycleInterval);
    SelectRestartsCountdown(before, i, |Services|, CycleInterval, c + CycleInterval);
  }

  /** Exactly one card carries the active styling while the section is
      mounted, whatever has happened: the one at the active index. */
  lemma ExactlyOneCardActive(s: RotatingSelector)
    requires s.Valid() && s.n == |Services|
    ensures CountActive(TabFlags(|Services|, s.activeIndex)) == 1
    ensures forall i :: 0 <= i < |Services| ==> (TabFlags(|Services|, s.activeIndex)[i] <==> i == s.activeIndex)
  {
    ExactlyOneTabActive(|Services|, s.activeIndex);
  }
}

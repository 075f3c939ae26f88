# Auto-rotating active item: the Services and Testimonials sections

This is a model of the one piece of stateful logic on the agency's landing page: the auto-rotating "active item" that the
Services section (three service cards) and the Testimonials section (one tab per testimonial) both run. Each mounted
section holds an `activeIndex` that starts at 0, and a `timerRef` that remembers one repeating interval. Each fire of
the interval moves the index to `(prev + 1) % length`. A click on card or tab `i` sets the index to `i` and then calls
`resetTimer`. That clears the remembered interval and starts a fresh one, so the next automatic advance is a full
period after the click. Unmounting clears the interval.

The project has four modules:

- `Rotation` (rotation.dfy) is the pure part:
  - `Next` is the interval callback's update.
  - `View` is an instance's state: the logical clock, the active index, and the due time of the pending interval.
  - `Rearmed`, `Selected`, `Fired` and `Disposed` are the transitions. `RunUntil` runs a logical clock that fires the
    pending interval at each due time.
  - `Event` and `Replay` apply any sequence of mounts, elapsed time, clicks and cleanups.
  - `TabFlags` holds the per-tab `i === activeIndex` flags.
- `Selector` (selector.dfy) holds the class `RotatingSelector`. Its fields are `n` (fixed at construction),
  `interval`, the clock `now`, `activeIndex` and `timerRef`. It also holds the host's table of live intervals
  (`live`, handle to next due time) and the handle counter that `setInterval` draws from. That table makes "at most one
  interval is pending" a proved fact about `resetTimer`'s clear-then-set, not something built into the types. Every
  handler method (`ResetTimer`, `Mount`, `Select`, `Dispose`, `Fire`, `AdvanceClock`) has an `ensures` that ties
  `View()` after the call to the matching pure transition of `View()` before it. `ClearInterval` and `SetInterval`
  stand for the host's timer calls and state only what they do to the live-interval table and the handle counter.
- `ServicesSection` (services.dfy) holds the three cards (by title) and `CycleInterval = 10000`. It mounts a selector with
  `n = 3`.
- `TestimonialsSection` (testimonials.dfy) holds the default list of four testimonials (by id and author), `CycleInterval = 10000`, and
  the render: the expanded testimonial plus the tab flags. It mounts a selector with `n = |testimonials|`.

The two source components carry the same state machine almost line for line. `resetTimer`, the mount effect,
`handleTabClick` and the interval callback are at components/sections/Services.tsx:54-71 and at
components/sections/Testimonials.tsx:83-100. The class and the generic lemmas cite the Services lines. The
Testimonials rows cite what only that file has: the list taken from a property, the unguarded `testimonials[activeIndex]`
lookup, and the tab row.

Facts about the code that shape the model:

- Neither component checks for an empty list or for a bad index. So `1 <= count` on construction and `i < n` on
  `Select` are preconditions, not error results. Clicks only ever pass a card's or tab's own map index.
- `setInterval` repeats, and a fire does not re-arm it. The model keeps the same interval live and makes it due at
  `due + interval`.
- `handleTabClick` has no guard for use after cleanup. So `Select` after `Dispose` starts a fresh interval, exactly as
  `handleTabClick` would.
- Cleanup does not null `timerRef.current`, so the ref keeps a stale handle. A second cleanup then clears a handle
  that is no longer live, which the host ignores.
- The Testimonials render looks up `testimonials[activeIndex]` without a guard. The model proves that the index is
  always in range instead of adding a check.

## Model

| member | source | states |
|---|---|---|
| Rotation.Next | components/sections/Services.tsx:56-58 | the update stays in `[0, n)`; it is `prev + 1` below the last item and wraps the last item to 0 |
| Rotation.Advance | components/sections/Services.tsx:56-58 | any number of ticks from a valid index leaves a valid index |
| Rotation.AdvanceIsModular | components/sections/Services.tsx:56-58 | `k` ticks from index `j` leave the index at `(j + k) % n` |
| Rotation.RunUntil | components/sections/Services.tsx:56-58 | the clock runs forward only (`t` is not before the current time); after it reaches `t`: the clock reads `t`, the index is in range, every fire due at or before `t` has happened (a pending interval is due after `t`), and the interval stays live exactly when it was live, because `setInterval` repeats |
| Rotation.FireCountBounds | components/sections/Services.tsx:56-58 | the fires up to `t` are exactly the due times `d, d + interval, …` not after `t`; there are none iff `t < d` |
| Rotation.FireCountIsQuotient | components/sections/Services.tsx:56-58 | from a due time `d <= t`, the interval fires `(t - d) / interval + 1` times up to `t` |
| Rotation.RunUntilTicks | components/sections/Services.tsx:56-58 | running the clock is that many single ticks: the index is advanced that many times, and the next due time is that many periods later |
| Rotation.RunUntilClosedForm | components/sections/Services.tsx:56-58 | running the clock to `t` leaves index `(active + fires) % n` and the next due time `due + fires * interval` |
| Rotation.RotationSinceMount | components/sections/Services.tsx:51-62 | with no clicks, an instance mounted at `m` shows, at time `t`, item `((t - m) / interval) % n` |
| Rotation.SelectRestartsCountdown | components/sections/Services.tsx:68-71 | whatever was pending, after a click on `i` the index stays `i` for the whole period after the click, and the first tick comes exactly one period after the click |
| Rotation.ReselectRestartsCountdown | components/sections/Services.tsx:68-71 | select `i`, wait half a period, select the active item again, wait half a period: the index is still `i`, and the next tick is a full period after the second click |
| Rotation.Rearmed | components/sections/Services.tsx:54-59 | `resetTimer` on the pure view: index and clock unchanged, and the one pending interval is due a full period from now whatever was pending before; `ResetTimer` and `Mount` are tied to it |
| Rotation.Selected | components/sections/Services.tsx:68-71 | `handleTabClick(i)` on the pure view: the index is exactly `i`, the clock is unchanged, and the next fire is due a full period after the click; `Select` is tied to it |
| Rotation.Disposed | components/sections/Services.tsx:63-65 | the cleanup on the pure view: no interval pending, index and clock unchanged; `Dispose` is tied to it |
| Rotation.Fired | components/sections/Services.tsx:56-58 | one fire on the pure view: with nothing pending nothing changes; otherwise the clock reads the due time, the index is `Next` of the old one, and the interval is next due one period later; a well-formed state stays well-formed; `Fire` is tied to it |
| Rotation.NothingFiresAfterDispose | components/sections/Services.tsx:63-65 | after cleanup no fire happens however far the clock runs, and a second cleanup changes nothing |
| Rotation.SingleItemStaysAtZero | components/sections/Testimonials.tsx:85-87 | with one testimonial the index stays 0 while the interval keeps firing (its due time moves on) |
| Rotation.Step | components/sections/Testimonials.tsx:83-100 | each handler (mount, elapsed time, a tab click on a valid tab, cleanup) keeps the index in range |
| Rotation.Replay | components/sections/Testimonials.tsx:83-100 | any run of handlers keeps the index in range |
| Rotation.ReplayKeepsWellFormed | components/sections/Testimonials.tsx:83-100 | any run of handlers keeps the index in range and a pending interval in the future, and never moves the clock backwards |
| Rotation.TabFlags | components/sections/Services.tsx:154-156 | one flag per card, in render order; card `i` is flagged active exactly when `i` is the active index |
| Rotation.ExactlyOneTabActive | components/sections/Services.tsx:154-168 | exactly one card is marked active |
| Selector.AtMostOneLive | components/sections/Services.tsx:54-59 | when every live interval is the one `timerRef` remembers, at most one interval is live |
| Selector.RotatingSelector.constructor | components/sections/Services.tsx:51-52 | first render: index 0, clock 0, `timerRef` null, no live interval |
| Selector.RotatingSelector.ClearInterval | components/sections/Services.tsx:55 | the host's `clearInterval` removes that handle from the live intervals; a dead handle changes nothing |
| Selector.RotatingSelector.SetInterval | components/sections/Services.tsx:56-58 | the host's `setInterval` adds one fresh handle, first due at the given time |
| Selector.RotatingSelector.ResetTimer | components/sections/Services.tsx:54-59 | clears the remembered interval and starts one new one due a full period from now; afterwards exactly that one interval is live and `timerRef` holds it |
| Selector.RotatingSelector.Mount | components/sections/Services.tsx:61-62 | the mount effect re-arms the timer; exactly one interval is live |
| Selector.RotatingSelector.Select | components/sections/Services.tsx:68-71 | a click sets the index to exactly `i`, whether or not `i` was active, and restarts the countdown: one live interval, due a full period after the click |
| Selector.RotatingSelector.Dispose | components/sections/Services.tsx:63-65 | cleanup leaves no live interval; `timerRef` keeps its stale handle, so cleanup is idempotent |
| Selector.RotatingSelector.Fire | components/sections/Services.tsx:56-58 | a fire moves the index to `(prev + 1) % n` and keeps the same interval live, due one period later; with no live interval nothing happens |
| Selector.RotatingSelector.AdvanceClock | components/sections/Services.tsx:56-58 | letting `dt` pass leaves exactly the state `RunUntil` gives, so every property of `RunUntil` holds of the object |
| Selector.RotatingSelector.OneLiveInterval | components/sections/Services.tsx:54-59 | in every valid state at most one interval is live |
| ServicesSection.MountSection | components/sections/Services.tsx:48-62 | the mounted section has 3 cards, a 10000 ms period, card 0 active and one interval due at 10000 |
| ServicesSection.CardsCycleAndWrap | components/sections/Services.tsx:9-58 | left alone, the active card at time `t` is `(t / 10000) % 3`, and card 2 is followed by card 0 |
| ServicesSection.ClickPostponesNextTick | components/sections/Services.tsx:68-71 | a click on card `i` between the first and second tick keeps `i` active past the old due time 20000, and the next tick comes a full period after the click |
| ServicesSection.ExactlyOneCardActive | components/sections/Services.tsx:154-168 | in any valid state exactly one card is styled active: the one at the active index |
| TestimonialsSection.MountSection | components/sections/Testimonials.tsx:72-95 | the mounted section's modulus is the list's length at mount, fixed from then on; the first testimonial is active and one interval is live |
| TestimonialsSection.ShownMatchesHighlightedTab | components/sections/Testimonials.tsx:248-256 | exactly one tab is highlighted, and the expanded testimonial (`testimonials[activeIndex]`) is the one whose tab is highlighted |
| TestimonialsSection.Render | components/sections/Testimonials.tsx:248-256 | a render shows `testimonials[active]`, gives one flag per tab, flags the active tab, and every flagged tab is the one shown |
| TestimonialsSection.ActiveTestimonial | components/sections/Testimonials.tsx:147 | on a mounted instance the lookup `testimonials[activeIndex]` is defined, yields a member of the list, and is what the render shows |
| TestimonialsSection.LookupStaysInRange | components/sections/Testimonials.tsx:147 | whatever handlers run after the first render, the unguarded lookup `testimonials[activeIndex]` stays in range |
| TestimonialsSection.DefaultsCycleAndWrap | components/sections/Testimonials.tsx:78-88 | left alone, the four default testimonials show in order, `(t / 10000) % 4`, and the fourth is followed by the first |

## Left out

- Wall-clock time, timer drift and React scheduling. Time is a logical clock. Each handler (click, fire, cleanup) is one
  atomic step, and `setActiveIndex` takes effect at once instead of at the next render.
- `useCallback` / `useEffect` mechanics beyond "the effect runs once on mount and its cleanup runs on unmount". A
  repeated mount (as in React's development double-invocation) is modelled by `Mount` on an existing object.
- A `testimonials` property that changes while mounted. The interval keeps the length captured at first render (the
  memoised `resetTimer` has an empty dependency list), and the model fixes `n` at construction. What a later render with
  a shorter list would show is not modelled.
- Error results for an empty list or an out-of-range click. The code has neither check, so these are preconditions.
- The framer-motion variants, the `AnimatePresence` cross-fade, hover effects and all styling beyond the active/inactive
  choice. These are floating-point animation values and library behaviour.
- The navigation bar, the scroll-linked process line, and the static sections (hero, footer, the second services
  variant, featured work, why-choose-us, final call to action, layout, page, theme configuration). They are presentation
  only, with no state worth proving.
- The service descriptions, feature lists, icons, and the testimonials' roles, quotes, ratings and initials. The
  datatypes keep only what identifies an item (a service's title, a testimonial's id and author), because the rotation
  and the render only pick an item by position.

# Landing-page interaction logic, modelled in Dafny

The repository is a marketing landing page built with React and the GSAP animation library. Most of
its code hands values to GSAP or to the DOM. This project models the part that is logic, in three
components, and proves what that logic promises:

- **Hero slider** (`app/components/Hero.tsx`):
  - `goTo` wraps any integer target into the slide range with JavaScript's truncating `%`.
  - It kills the previous transition timeline, creates a new one and commits the index at once.
  - `next`/`prev` step the index.
  - The autoplay interval is cleared and reinstalled on every index change.
  - `splitTextToChars` turns a heading's text into line and character spans.
  - `playIntroForSlide` splits a heading only once, kills the old intro timeline and either shows
    everything (reduced motion) or starts a new intro.
  - The mount and unmount effects set these up and tear them down.
- **Portfolio preview** (`app/components/PortfolioSection.tsx`):
  - the active project, which the arrow keys move with clamping and thumbnail hover/focus set;
  - the reduced-motion title swap;
  - the once-only background particles;
  - the keydown listener the navigation effect adds and removes.
- **Testimonial marquee** (`app/components/TestimonialSlider.tsx`):
  - the play/pause state of the marquee timeline, the card float tweens and the sparkle tweens;
  - `togglePlay`, pointer/focus enter and leave, and Space;
  - the marquee and sparkle effects that kill, rebuild and clean up these lists.

Timelines, tweens, intervals, listeners and DOM elements are opaque handles (`Handle = nat`), handed
out from a counter so that every new one is fresh. Each component is a class whose fields are the
component's state and refs. Each React effect is a method, and so is its cleanup. React re-runs an
effect when a dependency changes; a caller models that by calling the cleanup and then the effect
again. The hero is the exception: `GoTo` itself restarts autoplay, because its `setIndex` always
triggers that re-run. The clock is a `now` field advanced by `Wait`. Reduced motion, touch support
and whether an element exists are parameters.

Modules: `Handles` (Option, Handle), `HeroIndex` (index arithmetic), `HeroSplit` (the character
splitter and a decoder for its markup), `HeroSlider`, `Portfolio`, `Testimonial`.

## Model

| member | source | states |
|---|---|---|
| HeroIndex.JsRem | app/components/Hero.tsx:46 | JavaScript `%`: the remainder has the dividend's sign, is smaller than the divisor in magnitude, and differs from the dividend by a multiple of it |
| HeroIndex.NormalizeIndex | app/components/Hero.tsx:46 | `((i % N) + N) % N` lies in `[0, N)` and is the mathematical residue of `i`, for every integer including negatives |
| HeroIndex.NextIndex | app/components/Hero.tsx:75 | the slide `next` goes to lies in `[0, N)` and is the residue of `index + 1` |
| HeroIndex.PrevIndex | app/components/Hero.tsx:76 | the slide `prev` goes to lies in `[0, N)` and is the residue of `index - 1` |
| HeroIndex.NormalizeFixesValid | app/components/Hero.tsx:46-47 | a target already in range normalises to itself, so `goTo(index)` hits the no-op branch |
| HeroIndex.NextStep | app/components/Hero.tsx:75 | `next` moves from slide k to k+1, and from the last slide to 0 |
| HeroIndex.PrevStep | app/components/Hero.tsx:76 | `prev` moves from slide k to k-1, and from slide 0 to the last |
| HeroIndex.PrevUndoesNext | app/components/Hero.tsx:75-76 | `prev` after `next` returns to the start, and `next` after `prev` does too |
| HeroIndex.AdvanceIsShift | app/components/Hero.tsx:75 | m successive `next` calls from k land on `(k + m) mod N` |
| HeroIndex.FullCycleReturns | app/components/Hero.tsx:75 | N successive `next` calls return to the starting slide |
| HeroIndex.RetreatUndoesAdvance | app/components/Hero.tsx:75-76 | m `prev` calls undo m `next` calls |
| HeroIndex.AdvanceInRange | app/components/Hero.tsx:75 | any number of `next` calls stays within the slide range |
| HeroSplit.SplitLines | app/components/Hero.tsx:108 | `text.split('\n')` yields at least one part and no part contains `'\n'` |
| HeroSplit.JoinSplit | app/components/Hero.tsx:108 | joining the parts with `'\n'` gives back the text |
| HeroSplit.SplitJoin | app/components/Hero.tsx:108 | splitting the join of newline-free parts gives back the parts |
| HeroSplit.Escape | app/components/Hero.tsx:113 | an escaped character contains no space, `<` or `>`, and decodes back to that character; together these fix the mapping (`' '` to `&nbsp;`, `<` to `&lt;`, `>` to `&gt;`, others copied) |
| HeroSplit.DecodeLastLine | app/components/Hero.tsx:116 | a line span on its own reads back as exactly its part |
| HeroSplit.FragmentsShape | app/components/Hero.tsx:110-118 | the fragment list has 2p-1 entries for p parts: one line span per part at the even positions, and a `<br/>` exactly between consecutive parts |
| HeroSplit.SplitTextToChars | app/components/Hero.tsx:106-119 | the `forEach` loop's markup is the rendered line/char spans, and decoding it gives back the original text |
| HeroSplit.DecodeCharSpans | app/components/Hero.tsx:111-115 | the char spans of a part decode to exactly that part's characters, one span per character, in order |
| HeroSplit.Render | app/components/Hero.tsx:106-119 | the whole markup decodes to the heading's text: every line and every character survives, in order |
| HeroSlider.ShowAll | app/components/Hero.tsx:136-141 | under reduced motion every char span becomes visible and the characters are unchanged |
| HeroSlider.Shown | app/components/Hero.tsx:113 | a char span never shows a plain space: a space is written as `&nbsp;` and reads as a no-break space, every other character as itself |
| HeroSlider.TextContentEmpty | app/components/Hero.tsx:107 | the text content of a split heading is empty exactly when it has no char span |
| HeroSlider.SplitHeadingLines | app/components/Hero.tsx:106-119 | `splitTextToChars` leaves a split heading whose lines hold the `'\n'`-separated parts of its old text content, every char hidden |
| HeroSlider.PreparedSplit | app/components/Hero.tsx:127-128 | the heading the intro works on is always split: kept as it is when it has a char span, otherwise cut from its text content |
| HeroSlider.ParseSplit | app/components/Hero.tsx:106-119 | the split heading has one line per `'\n'`-separated part, holding that part's characters |
| HeroSlider.PreparedIdempotent | app/components/Hero.tsx:127-128 | for a title with a character other than `'\n'` (both slide titles), the `.char` guard makes splitting idempotent: preparing the split heading again keeps it, and its characters are the title's parts; an empty or newline-only title gets no char span and is re-split by every intro |
| HeroSlider.ResplitMergesLines | app/components/Hero.tsx:127-128 | without the guard, re-splitting a split heading would merge all its lines into one, since its text has no `'\n'` left |
| HeroSlider.TitlesSplitOnce | app/components/Hero.tsx:18-33 | both slide titles leave char spans once split, so every later intro keeps their lines and characters |
| HeroSlider.HeroSlider.constructor | app/components/Hero.tsx:35-42 | the slider starts on slide 0 with no timeline, no interval and no intro |
| HeroSlider.HeroSlider.GoTo | app/components/Hero.tsx:44-73 | index becomes the normalised target; an equal target changes nothing; otherwise the old transition is killed and exactly one new one is live, the index is committed at once, the intro is queued and the autoplay interval is cleared and reinstalled with a full countdown |
| HeroSlider.HeroSlider.Next | app/components/Hero.tsx:75 | the index moves to the next slide (it always changes); as in `goTo`, the old transition is replaced by one fresh live one, the intro is queued, the countdown restarts, and headings, intros and the clock stay as they were |
| HeroSlider.HeroSlider.Prev | app/components/Hero.tsx:76 | the index moves to the previous slide (it always changes); as in `goTo`, the old transition is replaced by one fresh live one, the intro is queued, the countdown restarts, and headings, intros and the clock stay as they were |
| HeroSlider.HeroSlider.AutoplayEffect | app/components/Hero.tsx:78-81 | without autoplay nothing changes; with it the previous interval is cleared and one interval, aiming at `index + 1`, is installed |
| HeroSlider.HeroSlider.AutoplayCleanup | app/components/Hero.tsx:82-87 | the interval is cleared and `autoplayRef` emptied; nothing else changes |
| HeroSlider.HeroSlider.RestartAutoplay | app/components/Hero.tsx:78-88 | the re-run on an index change leaves no stale interval and at most one new one |
| HeroSlider.HeroSlider.Wait | app/components/Hero.tsx:81 | time passes; the interval fires exactly when its due time is reached, and then does what `goTo(index + 1)` does (next slide, transition replaced, intro queued, interval re-armed); otherwise only the clock moves; headings and intros never change |
| HeroSlider.HeroSlider.PlayIntroForSlide | app/components/Hero.tsx:122-154 | no heading: nothing changes; otherwise the heading is split only if it has no char span, the slide's old intro is killed, and reduced motion shows every char with no new timeline while otherwise a fresh intro timeline is recorded |
| HeroSlider.HeroSlider.PrepareHeading | app/components/Hero.tsx:127-128 | only that heading changes, and it is split only when it has no char span |
| HeroSlider.HeroSlider.SplitHeadingAt | app/components/Hero.tsx:106-119 | `splitTextToChars(heading)` replaces only that heading, by its text content split into lines of hidden char spans |
| HeroSlider.HeroSlider.KillIntro | app/components/Hero.tsx:130-134 | the slide's intro timeline is killed and forgotten |
| HeroSlider.HeroSlider.ShowAllChars | app/components/Hero.tsx:136-141 | reduced motion makes every char of that heading visible, and changes no other heading |
| HeroSlider.HeroSlider.StartIntro | app/components/Hero.tsx:144-153 | a fresh intro timeline becomes the slide's intro |
| HeroSlider.IntroIds | app/components/Hero.tsx:161-166 | the handle set holds exactly the intro timelines that the first `k` slide entries refer to |
| HeroSlider.HeroSlider.SetupHeadings | app/components/Hero.tsx:157-214 | the heading effect kills every intro, so the killed set grows by exactly the old intro timelines; it splits every heading unconditionally, and the current slide gets no intro under reduced motion and otherwise the freshly allocated timeline |
| HeroSlider.HeroSlider.KillAllIntros | app/components/Hero.tsx:161-166 | every intro entry is emptied (`animRefs` cleared) and the killed set grows by exactly the intro timelines the slides held before |
| HeroSlider.HeroSlider.SplitAllHeadings | app/components/Hero.tsx:168-178 | every heading is replaced by the split of its text content |
| HeroSlider.HeroSlider.Mount | app/components/Hero.tsx:78-225 | after mounting, autoplay has one interval aiming at the next slide; exactly the old intros join the killed set; every other heading is split from its text content with no intro; the current one is split and prepared, shown under reduced motion and otherwise given the timeline allocated right after the autoplay interval; index, transition, queue and clock are unchanged |
| HeroSlider.HeroSlider.FireIntroTimeout | app/components/Hero.tsx:72 | the oldest queued 80 ms timeout plays its slide's intro: the heading is prepared, the old intro killed and a fresh one recorded (none under reduced motion); index, transition, interval and clock are unchanged; nothing cancels these timeouts |
| HeroSlider.HeroSlider.Unmount | app/components/Hero.tsx:216-234 | no transition, interval or intro timeline stays live, and the killed set grows by exactly the old intro timelines; `tlRef` keeps the killed timeline; queued intro timeouts stay queued; headings, index and clock are unchanged |
| HeroSlider.ThreeAutoplayTicks | app/components/Hero.tsx:78-88 | with autoplay and no interaction, three intervals visit slides 1, 0, 1 |
| HeroSlider.ManualNextRestartsCountdown | app/components/Hero.tsx:75-88 | `next()` during a countdown postpones the autoplay step to a full interval after the click |
| HeroSlider.NoAutoplayNoAdvance | app/components/Hero.tsx:78-79 | with autoplay off no waiting changes the slide |
| Portfolio.FindIndex | app/components/PortfolioSection.tsx:218 | `findIndex` gives the first position holding the id, or -1 exactly when no project has it |
| Portfolio.TitleOf | app/components/PortfolioSection.tsx:164 | `find(...)?.title ?? ''` is the matching project's title, or `''` when none matches |
| Portfolio.FindIndexOfDistinct | app/components/PortfolioSection.tsx:218 | with distinct ids, looking up a project's id finds that project |
| Portfolio.ProjectIdsDistinct | app/components/PortfolioSection.tsx:11-17 | the five project ids are distinct |
| Portfolio.ArrowDownIndex | app/components/PortfolioSection.tsx:220 | `Math.min(projects.length - 1, idx + 1)`: at most both candidates, and one of them exactly |
| Portfolio.ArrowUpIndex | app/components/PortfolioSection.tsx:223 | `Math.max(0, idx - 1)`: at least both candidates, and one of them exactly |
| Portfolio.ArrowsClamp | app/components/PortfolioSection.tsx:219-224 | ArrowDown selects the next project but stays on the last; ArrowUp the previous one but stays on the first; both stay in range, even from a missing id (-1) |
| Portfolio.ArrowsUndoEachOther | app/components/PortfolioSection.tsx:219-224 | away from the ends, ArrowUp undoes ArrowDown and ArrowDown undoes ArrowUp |
| Portfolio.PressDownReachesEnd | app/components/PortfolioSection.tsx:219-221 | m presses of ArrowDown move m projects on, but never past the last |
| Portfolio.PortfolioSection.constructor | app/components/PortfolioSection.tsx:32 | the first project is active; no particles, listener or swap timeline yet |
| Portfolio.PortfolioSection.OnThumbnailEnterOrFocus | app/components/PortfolioSection.tsx:489-490 | hovering or focusing a thumbnail makes its project the active one |
| Portfolio.PortfolioSection.OnKey | app/components/PortfolioSection.tsx:216-226 | while the listener is registered, ArrowDown and ArrowUp move the active project to the clamped neighbour; other keys leave it unchanged; the active id is always a project's id |
| Portfolio.PortfolioSection.PreviewSwapEffect | app/components/PortfolioSection.tsx:151-170 | without the preview elements nothing happens; under reduced motion the title text becomes the active project's title (or `''`) and no timeline is built; otherwise a fresh cross-fade timeline starts |
| Portfolio.PortfolioSection.PreviewSwapCleanup | app/components/PortfolioSection.tsx:210-212 | the swap timeline is killed |
| Portfolio.PortfolioSection.ParticleEffect | app/components/PortfolioSection.tsx:315-348 | without the layer, on touch devices or under reduced motion nothing happens; otherwise exactly 6 fresh discs are appended the first time and none on later runs |
| Portfolio.PortfolioSection.AppendGlows | app/components/PortfolioSection.tsx:333-347 | the loop appends exactly 6 fresh discs, in order |
| Portfolio.PortfolioSection.KeyNavEffect | app/components/PortfolioSection.tsx:227 | after the previous cleanup, the navigation effect registers one fresh keydown listener, and it is the only one |
| Portfolio.PortfolioSection.KeyNavCleanup | app/components/PortfolioSection.tsx:228 | the cleanup removes the listener it added and leaves none |
| Portfolio.ParticlesOnlyOnce | app/components/PortfolioSection.tsx:331-347 | two runs of the particle effect leave 6 discs, not 12 |
| Testimonial.WithPaused | app/components/TestimonialSlider.tsx:276-282 | pausing or resuming a tween list keeps every tween and sets its paused flag |
| Testimonial.WithPausedTwice | app/components/TestimonialSlider.tsx:276-282 | pausing or resuming twice is the same as doing only the last one |
| Testimonial.Toggle | app/components/TestimonialSlider.tsx:270-285 | `togglePlay` creates and kills nothing; under reduced motion or with no timeline it changes nothing; otherwise `isPlaying` becomes whether the timeline was paused |
| Testimonial.ToggleSyncs | app/components/TestimonialSlider.tsx:274-284 | after a toggle the timeline, floats and sparkles are all paused exactly when `isPlaying` is false, and from such a state `isPlaying` flips |
| Testimonial.ToggleTwice | app/components/TestimonialSlider.tsx:270-285 | two toggles restore the timeline and bring every tween in line with it; from a state in agreement they restore it exactly |
| Testimonial.Enter | app/components/TestimonialSlider.tsx:131-135 | `onEnter` leaves the timeline and every float paused and `isPlaying` false, with the same tweens and the sparkles untouched |
| Testimonial.Leave | app/components/TestimonialSlider.tsx:136-140 | `onLeave` leaves the timeline and every float running and `isPlaying` true, with the same tweens and the sparkles untouched |
| Testimonial.EnterLeave | app/components/TestimonialSlider.tsx:131-140 | entering twice is entering once, and leaving after entering restores a running state |
| Testimonial.TestimonialSlider.constructor | app/components/TestimonialSlider.tsx:34 | `isPlaying` starts true, with nothing built |
| Testimonial.TestimonialSlider.KillTweens | app/components/TestimonialSlider.tsx:51 | every tween of the list is killed, and nothing else |
| Testimonial.TestimonialSlider.SetPaused | app/components/TestimonialSlider.tsx:276-282 | the `forEach` pause/resume loop gives the list with every tween paused (or resumed) |
| Testimonial.TestimonialSlider.TogglePlay | app/components/TestimonialSlider.tsx:270-285 | `togglePlay` does exactly what `Toggle` states: guarded by reduced motion and a missing timeline, then plays or pauses timeline, floats and sparkles together and sets `isPlaying` |
| Testimonial.TestimonialSlider.OnEnter | app/components/TestimonialSlider.tsx:131-135 | while the listeners are attached, pointer-enter/focus-in pauses the timeline and the floats and clears `isPlaying`; sparkles keep running |
| Testimonial.TestimonialSlider.OnLeave | app/components/TestimonialSlider.tsx:136-140 | while the listeners are attached, pointer-leave/focus-out resumes the timeline and the floats and sets `isPlaying` |
| Testimonial.TestimonialSlider.OnKey | app/components/TestimonialSlider.tsx:155-161 | Space (`' '` or `'Spacebar'`) toggles only when focus is inside the section; every other key is ignored |
| Testimonial.TestimonialSlider.KillMarquee | app/components/TestimonialSlider.tsx:49-52 | the previous timeline and floats are killed and the float list emptied |
| Testimonial.TestimonialSlider.MarqueeEffect | app/components/TestimonialSlider.tsx:45-162 | the old timeline and floats are killed; under reduced motion or with no original cards nothing is built; otherwise one new timeline, paused exactly when `isPlaying` is false, and one running float per card, with the listeners attached |
| Testimonial.TestimonialSlider.MarqueeCleanup | app/components/TestimonialSlider.tsx:164-174 | listeners detached, timeline and floats killed; both stay referenced |
| Testimonial.TestimonialSlider.RemoveElements | app/components/TestimonialSlider.tsx:188 | every listed sparkle element is removed from the layer |
| Testimonial.TestimonialSlider.ClearSparkles | app/components/TestimonialSlider.tsx:186-189 | the previous sparkle tweens are killed, their elements removed, and both lists emptied |
| Testimonial.TestimonialSlider.AddSparkles | app/components/TestimonialSlider.tsx:211-259 | the loop tracks exactly 28 fresh elements and 56 running tweens, two per element in creation order |
| Testimonial.TestimonialSlider.AddSparkle | app/components/TestimonialSlider.tsx:212-258 | one iteration attaches one fresh element to the layer and the list, then pushes its two running tweens |
| Testimonial.TestimonialSlider.SparkleEffect | app/components/TestimonialSlider.tsx:178-259 | under reduced motion or without layer and track nothing changes; otherwise the old sparkle tweens are killed and their elements leave the layer, then with original cards 28 fresh elements with 2 running tweens each are added |
| Testimonial.TestimonialSlider.SparkleCleanup | app/components/TestimonialSlider.tsx:262-267 | the cleanup leaves both `sparkleTweens` and `sparkleEls` empty, the old tweens killed and the old elements removed |
| Testimonial.HoverThenRebuild | app/components/TestimonialSlider.tsx:126-175 | hovering clears `isPlaying`, which re-runs the marquee effect: the rebuilt timeline is paused, but the rebuilt card floats run |
| Testimonial.SpaceTwice | app/components/TestimonialSlider.tsx:155-175 | two Space presses inside the section, each followed by the rebuild, pause and then resume the marquee |

## Left out

- GSAP tween and timeline parameters (durations, eases, staggers, tempo), ScrollTrigger wiring and the per-slide intro triggers that fire on scroll: a timeline is only a handle with a paused flag.
- The hero's scroll-scrubbed heading parallax tween (`animRefs[i].parallax`, created in the heading effect and killed with the intros on re-run and unmount) and its `ScrollTrigger` triggers: scroll-driven library animation with no logic of its own; an intro record here holds only the intro timeline.
- Pointer-driven parallax in the portfolio, and the marquee slow-down on pointer move with its 420 ms timeout: floating-point motion driven by frame callbacks and timers.
- Marquee width and duration measurement, sparkle travel width: DOM measurement and floating-point arithmetic.
- Random particle and sparkle positions, sizes and opacities: a disc or sparkle is only a fresh handle.
- Video playback in the hero (`play().catch`): browser I/O whose errors are swallowed.
- The hero's initial visibility effect (`gsap.set` on slides and content): it only sets styles.
- The portfolio's scroll-reveal effect, thumbnail highlighting, glow and rim pulses in the preview swap: library calls with no state of their own.
- The portfolio's pointer listener and its cleanup in the particle effect: it only drives parallax.
- The testimonial's reduced-motion `gsap.set` of the track and rim: styles only.
- HeroSlider.HeroSlider.GoTo: has no reduced-motion bypass, as in the code; the intro it queues runs 80 ms later and is modelled by `FireIntroTimeout`.
- HeroSlider.HeroSlider.SetupHeadings: plays the current slide's intro after splitting all headings, not inside the per-slide loop. The other slides' splits do not affect that intro, so the result is the same.
- HeroSlider.HeroSlider.Wait: an interval of 0 ms is treated like any other; a browser clamps it to a minimum delay.
- Portfolio.PortfolioSection.OnKey: `projects` is the fixed five-entry list, so the `if (next)` guard never fails; a missing active id behaves as -1, as `findIndex` returns.
- Testimonial.TestimonialSlider.TogglePlay: a tween's killed state is kept apart from it (in `killed`); pausing or resuming a killed tween only flips its paused flag, and what GSAP then shows is not modelled.
- Testimonial.TestimonialSlider.MarqueeEffect: React runs an effect's cleanup before re-running it, so the effect requires the previous cleanup to have run (`!listening`); the sparkle, preview-swap and keyboard-navigation effects likewise.
- `prefersReduce` is read on every render in the testimonial slider; here it is fixed for the component's life, since its change is a browser setting, not component logic.
- `'\U{00A0}'` stands for the no-break space that `&nbsp;` becomes in `textContent`; `Array.from` iterates code points, which are the characters here.
- The other components (about, services, tech stack, header) and the home page: they only compose markup and start library animations.

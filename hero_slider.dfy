/**
 * The hero slider component of app/components/Hero.tsx as a stateful object: the slide index,
 * the transition timeline (`tlRef`), the autoplay interval (`autoplayRef`), the per-slide intro
 * timelines (`animRefs[i].intro`) and the heading elements the intro splits into char spans.
 * GSAP timelines and browser intervals are opaque handles; a handle is "live" until it is
 * killed or cleared. React's re-render after `setIndex` (which re-runs the autoplay effect,
 * whose dependencies include `index`) is folded into the call that changed the index.
 */
module HeroSlider {
  import opened Handles
  import HeroIndex
  import HeroSplit

  datatype Slide = Slide(id: string, title: string)

  /** `SLIDES`: two slides whose titles hold one line break each. */
  const Slides: seq<Slide> := [Slide("s1", "UI / UX\nDESIGN"), Slide("s2", "PRODUCT\nDESIGN")]
  const SlideCount: int := |Slides|

  /** One char span of a split heading: the character it shows and whether it is visible yet. */
  datatype CharNode = CharNode(ch: char, visible: bool)

  /** A heading element: still its plain title text, or the line spans of char spans it was split into. */
  datatype Heading = Plain(text: string) | Split(lines: seq<seq<CharNode>>)

  /** The autoplay interval: its id, the slide it will go to, and when it next fires (ms). */
  datatype Interval = Interval(id: Handle, target: int, due: int)

  /** `heading.querySelector('.char')` finds something. */
  predicate HasCharSpan(h: Heading)
  {
    h.Split? && exists k :: 0 <= k < |h.lines| && h.lines[k] != []
  }

  /** What a char span displays: `&nbsp;` is a no-break space, the other entities their character. */
  function Shown(c: char): (shown: char)
    ensures shown != ' '
    ensures c == ' ' ==> shown == '\U{00A0}'
    ensures shown == c <==> c != ' '
  {
    if c == ' ' then '\U{00A0}' else c
  }

  function LineText(line: seq<CharNode>): (t: string)
    ensures |t| == |line|
  {
    if line == [] then "" else [Shown(line[0].ch)] + LineText(line[1..])
  }

  /** `node.textContent`: the plain text, or the shown characters of all spans (`<br/>` adds nothing). */
  function TextContent(h: Heading): string
  {
    match h
    case Plain(t) => t
    case Split(lines) => LinesText(lines)
  }

  function LinesText(lines: seq<seq<CharNode>>): string
  {
    if lines == [] then "" else LineText(lines[0]) + LinesText(lines[1..])
  }

  lemma {:induction false} LinesTextEmpty(lines: seq<seq<CharNode>>)
    ensures LinesText(lines) == [] <==> forall k :: 0 <= k < |lines| ==> lines[k] == []
  {
    if lines != [] {
      LinesTextEmpty(lines[1..]);
      assert forall k :: 1 <= k < |lines| ==> lines[k] == lines[1..][k - 1];
    }
  }

  /** A split heading has text content exactly when it has a char span. */
  lemma TextContentEmpty(h: Heading)
    requires h.Split?
    ensures TextContent(h) != [] <==> HasCharSpan(h)
  {
    LinesTextEmpty(h.lines);
  }

  /** The char spans of one line, all still hidden (`opacity-0`). */
  function HiddenLine(part: string): (line: seq<CharNode>)
    ensures |line| == |part|
    ensures forall j :: 0 <= j < |part| ==> line[j] == CharNode(part[j], false)
  {
    if part == [] then [] else [CharNode(part[0], false)] + HiddenLine(part[1..])
  }

  function HiddenLines(parts: seq<string>): (lines: seq<seq<CharNode>>)
    ensures |lines| == |parts|
    ensures forall k :: 0 <= k < |parts| ==> lines[k] == HiddenLine(parts[k])
  {
    if parts == [] then [] else [HiddenLine(parts[0])] + HiddenLines(parts[1..])
  }

  /** The element the browser builds from the markup `splitTextToChars` wrote into `innerHTML`. */
  function Parse(html: string): Heading
  {
    match HeroSplit.DecodeLines(html)
    case Some(t) => Split(HiddenLines(HeroSplit.SplitLines(t)))
    case None => Plain(html)
  }

  /** The characters of each line, visibility aside. */
  function Chars(lines: seq<seq<CharNode>>): seq<string>
  {
    seq(|lines|, k requires 0 <= k < |lines| => seq(|lines[k]|, j requires 0 <= j < |lines[k]| => lines[k][j].ch))
  }

  function ShowLine(line: seq<CharNode>): (r: seq<CharNode>)
    ensures |r| == |line|
    ensures forall j :: 0 <= j < |line| ==> r[j] == CharNode(line[j].ch, true)
  {
    if line == [] then [] else [CharNode(line[0].ch, true)] + ShowLine(line[1..])
  }

  function ShowLines(lines: seq<seq<CharNode>>): (r: seq<seq<CharNode>>)
    ensures |r| == |lines|
    ensures forall k :: 0 <= k < |lines| ==> r[k] == ShowLine(lines[k])
  {
    if lines == [] then [] else [ShowLine(lines[0])] + ShowLines(lines[1..])
  }

  /** Reduced motion: every char span gets `opacity: 1` and no transform; the characters stay. */
  function ShowAll(h: Heading): (r: Heading)
    ensures h.Split? ==> r.Split? && Chars(r.lines) == Chars(h.lines)
    ensures h.Split? ==> forall k, j :: 0 <= k < |r.lines| && 0 <= j < |r.lines[k]| ==> r.lines[k][j].visible
    ensures h.Plain? ==> r == h
  {
    match h
    case Plain(_) => h
    case Split(lines) =>
      var r := ShowLines(lines);
      assert Chars(r) == Chars(lines) by {
        forall k | 0 <= k < |lines| ensures Chars(r)[k] == Chars(lines)[k] {
          assert |r[k]| == |lines[k]|;
        }
      }
      Split(r)
  }

  /** The split heading holds one line per `'\n'`-separated part of the text, with its characters in order. */
  lemma ParseSplit(text: string)
    ensures Parse(HeroSplit.Render(text)) == Split(HiddenLines(HeroSplit.SplitLines(text)))
    ensures Chars(HiddenLines(HeroSplit.SplitLines(text))) == HeroSplit.SplitLines(text)
  {
    assert HeroSplit.DecodeLines(HeroSplit.Render(text)) == Some(text);
    HiddenChars(HeroSplit.SplitLines(text));
  }

  /** A title with some character other than `'\n'` leaves a char span once split. */
  lemma {:induction false} SplitLeavesCharSpan(text: string, i: nat)
    requires i < |text| && text[i] != '\n'
    ensures HasCharSpan(Split(HiddenLines(HeroSplit.SplitLines(text))))
    decreases |text|
  {
    var parts := HeroSplit.SplitLines(text);
    var lines := HiddenLines(parts);
    if text[0] != '\n' {
      assert parts[0] != [];
      assert lines[0] != [];
    } else {
      SplitLeavesCharSpan(text[1..], i - 1);
      var rest := HeroSplit.SplitLines(text[1..]);
      assert parts == [""] + rest;
      var k :| 0 <= k < |rest| && HiddenLines(rest)[k] != [];
      assert lines[k + 1] == HiddenLines(rest)[k];
    }
  }

  /**
   * `playIntroForSlide` splits a heading only when it has no char span: the heading it then
   * works on. The text content of a split heading has no `'\n'` left (`<br/>` has no text).
   */
  function Prepared(h: Heading): Heading
  {
    if HasCharSpan(h) then h else SplitHeading(h)
  }

  /** The heading after `splitTextToChars`: its text content cut into lines of hidden char spans. */
  function SplitHeading(h: Heading): Heading
  {
    Split(HiddenLines(HeroSplit.SplitLines(TextContent(h))))
  }

  /** `splitTextToChars` leaves one line of hidden chars per `'\n'`-separated part of the old text content. */
  lemma SplitHeadingLines(h: Heading)
    ensures SplitHeading(h).Split?
    ensures Chars(SplitHeading(h).lines) == HeroSplit.SplitLines(TextContent(h))
    ensures forall k, j :: 0 <= k < |SplitHeading(h).lines| && 0 <= j < |SplitHeading(h).lines[k]| ==>
      !SplitHeading(h).lines[k][j].visible
  {
    HiddenChars(HeroSplit.SplitLines(TextContent(h)));
  }

  /**
   * The heading the intro works on is always split: kept when it has a char span, otherwise cut
   * from its text content.
   */
  lemma PreparedSplit(h: Heading)
    ensures Prepared(h).Split?
    ensures HasCharSpan(h) ==> Prepared(h) == h
    ensures !HasCharSpan(h) ==> Chars(Prepared(h).lines) == HeroSplit.SplitLines(TextContent(h))
  {
    if !HasCharSpan(h) {
      SplitHeadingLines(h);
    }
  }

  /** Hidden lines keep the characters of their parts. */
  lemma HiddenChars(parts: seq<string>)
    ensures Chars(HiddenLines(parts)) == parts
  {
    var c := Chars(HiddenLines(parts));
    assert |c| == |parts|;
    forall k | 0 <= k < |parts| ensures c[k] == parts[k] {
      assert |c[k]| == |parts[k]|;
    }
  }

  /**
   * Splitting is idempotent for a title with a character other than `'\n'`: preparing the
   * heading a second time keeps it, char spans and all.
   */
  lemma PreparedIdempotent(title: string, i: nat)
    requires i < |title| && title[i] != '\n'
    ensures HasCharSpan(Prepared(Plain(title)))
    ensures Prepared(Prepared(Plain(title))) == Prepared(Plain(title))
    ensures Chars(Prepared(Plain(title)).lines) == HeroSplit.SplitLines(title)
  {
    SplitLeavesCharSpan(title, i);
    ParseSplit(title);
  }

  /**
   * Why the guard is needed: splitting the text content of a split heading again would merge
   * all its lines into one, since that text has no `'\n'` left.
   */
  lemma ResplitMergesLines(title: string)
    ensures var once := Split(HiddenLines(HeroSplit.SplitLines(title)));
      HeroSplit.SplitLines(TextContent(once)) == [TextContent(once)]
  {
    var parts := HeroSplit.SplitLines(title);
    NoNewlineInText(HiddenLines(parts), parts);
    SingleLine(TextContent(Split(HiddenLines(parts))));
  }

  lemma {:induction false} NoNewlineInLine(part: string)
    requires '\n' !in part
    ensures '\n' !in LineText(HiddenLine(part))
  {
    if part != [] {
      NoNewlineInLine(part[1..]);
      assert HiddenLine(part)[1..] == HiddenLine(part[1..]);
    }
  }

  lemma {:induction false} NoNewlineInText(lines: seq<seq<CharNode>>, parts: seq<string>)
    requires lines == HiddenLines(parts)
    requires forall k :: 0 <= k < |parts| ==> '\n' !in parts[k]
    ensures '\n' !in LinesText(lines)
  {
    if lines != [] {
      NoNewlineInLine(parts[0]);
      assert lines[1..] == HiddenLines(parts[1..]);
      NoNewlineInText(lines[1..], parts[1..]);
    }
  }

  lemma {:induction false} SingleLine(s: string)
    requires '\n' !in s
    ensures HeroSplit.SplitLines(s) == [s]
  {
    if s != [] {
      SingleLine(s[1..]);
      assert [s[0]] + s[1..] == s;
    }
  }

  /** The intro timelines the first `k` slides refer to. */
  function IntroIds(intros: seq<Option<Handle>>, k: nat): (ids: set<Handle>)
    requires k <= |intros|
    ensures forall j :: 0 <= j < k && intros[j].Some? ==> intros[j].value in ids
    ensures forall h :: h in ids ==> exists j :: 0 <= j < k && intros[j] == Some(h)
  {
    if k == 0 then {}
    else IntroIds(intros, k - 1) + (if intros[k - 1].Some? then {intros[k - 1].value} else {})
  }

  class HeroSlider {
    /** `autoplay` and `interval` props (defaults `true` and 7000 ms). */
    const autoplay: bool
    const interval: nat

    var index: int
    /** `tlRef`: the latest transition timeline, which stays referenced after it is killed. */
    var transition: Option<Handle>
    /** Transition timelines created and not killed. */
    var liveTransitions: set<Handle>
    /** `autoplayRef`: the installed interval. */
    var autoplayTimer: Option<Interval>
    /** Intervals installed and not cleared. */
    var liveIntervals: set<Handle>
    /** `animRefs[i].intro`, by slide. */
    var intros: seq<Option<Handle>>
    /** Intro timelines killed so far. */
    var killedIntros: set<Handle>
    /** `headingRefs`: each slide's heading element. */
    var headings: seq<Heading>
    /** Slides whose 80 ms `setTimeout(() => playIntroForSlide(to))` is still pending, oldest first. */
    var pendingIntros: seq<int>
    /** The clock (ms) and the next handle identity to hand out. */
    var now: int
    var nextHandle: Handle

    /** Everything but the autoplay interval's link to the current slide. */
    ghost predicate Inv()
      reads this
    {
      && 0 <= index < SlideCount
      && |headings| == SlideCount
      // at most one transition timeline is live, and it is the one `tlRef` holds
      && liveTransitions <= (if transition.Some? then {transition.value} else {})
      // at most one interval is installed, and it is the one `autoplayRef` holds
      && liveIntervals == (if autoplayTimer.Some? then {autoplayTimer.value.id} else {})
      && (autoplayTimer.Some? ==> autoplay && now <= autoplayTimer.value.due)
      && |intros| == SlideCount
      // the intro timeline each slide refers to is live, and no two slides share one
      && (forall k :: 0 <= k < |intros| && intros[k].Some? ==> intros[k].value < nextHandle && intros[k].value !in killedIntros)
      && (forall a, b :: 0 <= a < b < |intros| && intros[a].Some? && intros[b].Some? ==> intros[a] != intros[b])
      && (forall h :: h in killedIntros ==> h < nextHandle)
      && (transition.Some? ==> transition.value < nextHandle)
      && (autoplayTimer.Some? ==> autoplayTimer.value.id < nextHandle)
      // `goTo` only queues normalised targets
      && (forall k :: 0 <= k < |pendingIntros| ==> 0 <= pendingIntros[k] < SlideCount)
    }

    /** The installed interval, if any, was installed for the current slide: it goes to the next one. */
    ghost predicate Valid()
      reads this
    {
      Inv() && (autoplayTimer.Some? ==> autoplayTimer.value.target == index + 1)
    }

    /** `useState(0)` and empty refs; the headings still hold their titles. */
    constructor (autoplay: bool, interval: nat)
      ensures Valid()
      ensures this.autoplay == autoplay && this.interval == interval
      ensures index == 0 && transition == None && autoplayTimer == None && intros == [None, None]
      ensures headings == [Plain(Slides[0].title), Plain(Slides[1].title)]
      ensures pendingIntros == [] && now == 0
    {
      this.autoplay := autoplay;
      this.interval := interval;
      index := 0;
      transition := None;
      liveTransitions := {};
      autoplayTimer := None;
      liveIntervals := {};
      intros := [None, None];
      killedIntros := {};
      headings := [Plain(Slides[0].title), Plain(Slides[1].title)];
      pendingIntros := [];
      now := 0;
      nextHandle := 0;
    }

    /**
     * `goTo(i)`: normalises `i` into `[0, SlideCount)`; a target equal to the current slide changes
     * nothing. Otherwise it kills the previous transition timeline before creating the new one,
     * commits the index at once (not on completion), queues the intro for the new slide, and the
     * re-render restarts the autoplay countdown.
     */
    method GoTo(i: int)
      requires Valid()
      modifies this
      ensures Valid()
      ensures index == HeroIndex.NormalizeIndex(i, SlideCount)
      ensures index == old(index) ==> unchanged(this)
      ensures index != old(index) ==>
        && transition == Some(old(nextHandle))
        && liveTransitions == {old(nextHandle)}
        && pendingIntros == old(pendingIntros) + [index]
        && (autoplay ==> autoplayTimer.Some? && autoplayTimer.value.due == now + interval)
        && (!autoplay ==> autoplayTimer == None)
        && (old(autoplayTimer).Some? ==> old(autoplayTimer).value.id !in liveIntervals)
      ensures headings == old(headings) && intros == old(intros) && killedIntros == old(killedIntros)
      ensures now == old(now)
    {
      var from := index;
      var to := HeroIndex.NormalizeIndex(i, SlideCount);
      if from == to {
        return;
      }
      if transition.Some? {
        liveTransitions := liveTransitions - {transition.value};
        transition := None;
      }
      var tl := nextHandle;
      nextHandle := nextHandle + 1;
      transition := Some(tl);
      liveTransitions := liveTransitions + {tl};
      index := to;
      pendingIntros := pendingIntros + [to];
      RestartAutoplay();
    }

    /** `next()`: `goTo(index + 1)`. */
    method Next()
      requires Valid()
      modifies this
      ensures Valid()
      ensures index == HeroIndex.NextIndex(old(index), SlideCount)
      ensures index != old(index)
      ensures transition == Some(old(nextHandle)) && liveTransitions == {old(nextHandle)}
      ensures pendingIntros == old(pendingIntros) + [index]
      ensures autoplay ==> autoplayTimer.Some? && autoplayTimer.value.due == now + interval
      ensures !autoplay ==> autoplayTimer == None
      ensures old(autoplayTimer).Some? ==> old(autoplayTimer).value.id !in liveIntervals
      ensures headings == old(headings) && intros == old(intros) && killedIntros == old(killedIntros)
      ensures now == old(now)
    {
      HeroIndex.NextStep(index, SlideCount);
      GoTo(index + 1);
    }

    /** `prev()`: `goTo(index - 1)`. */
    method Prev()
      requires Valid()
      modifies this
      ensures Valid()
      ensures index == HeroIndex.PrevIndex(old(index), SlideCount)
      ensures index != old(index)
      ensures transition == Some(old(nextHandle)) && liveTransitions == {old(nextHandle)}
      ensures pendingIntros == old(pendingIntros) + [index]
      ensures autoplay ==> autoplayTimer.Some? && autoplayTimer.value.due == now + interval
      ensures !autoplay ==> autoplayTimer == None
      ensures old(autoplayTimer).Some? ==> old(autoplayTimer).value.id !in liveIntervals
      ensures headings == old(headings) && intros == old(intros) && killedIntros == old(killedIntros)
      ensures now == old(now)
    {
      HeroIndex.PrevStep(index, SlideCount);
      GoTo(index - 1);
    }

    /** The autoplay effect's cleanup: clears the interval and empties `autoplayRef`. */
    method AutoplayCleanup()
      requires Valid()
      modifies this
      ensures Valid()
      ensures autoplayTimer == None && liveIntervals == {}
      ensures index == old(index) && transition == old(transition) && liveTransitions == old(liveTransitions)
      ensures headings == old(headings) && intros == old(intros) && killedIntros == old(killedIntros)
      ensures pendingIntros == old(pendingIntros) && now == old(now) && nextHandle == old(nextHandle)
    {
      if autoplayTimer.Some? {
        liveIntervals := liveIntervals - {autoplayTimer.value.id};
        autoplayTimer := None;
      }
    }

    /**
     * The autoplay effect: nothing when `autoplay` is off; otherwise it clears any installed
     * interval and installs a fresh one that will call `goTo(index + 1)` `interval` ms from now.
     */
    method AutoplayEffect()
      requires Valid()
      modifies this
      ensures Valid()
      ensures !autoplay ==> unchanged(this)
      ensures autoplay ==>
        && autoplayTimer == Some(Interval(old(nextHandle), index + 1, now + interval))
        && liveIntervals == {old(nextHandle)}
        && nextHandle == old(nextHandle) + 1
      ensures index == old(index) && transition == old(transition) && liveTransitions == old(liveTransitions)
      ensures headings == old(headings) && intros == old(intros) && killedIntros == old(killedIntros)
      ensures pendingIntros == old(pendingIntros) && now == old(now)
    {
      if !autoplay {
        return;
      }
      if autoplayTimer.Some? {
        liveIntervals := liveIntervals - {autoplayTimer.value.id};
      }
      var id := nextHandle;
      nextHandle := nextHandle + 1;
      autoplayTimer := Some(Interval(id, index + 1, now + interval));
      liveIntervals := {id};
    }

    /** React re-runs the autoplay effect when `index` changes: cleanup, then the effect again. */
    method RestartAutoplay()
      requires Inv()
      modifies this
      ensures Valid()
      ensures autoplay ==>
        && autoplayTimer == Some(Interval(old(nextHandle), index + 1, now + interval))
        && liveIntervals == {old(nextHandle)}
      ensures !autoplay ==> autoplayTimer == None && liveIntervals == {}
      ensures old(autoplayTimer).Some? ==> old(autoplayTimer).value.id !in liveIntervals
      ensures index == old(index) && transition == old(transition) && liveTransitions == old(liveTransitions)
      ensures headings == old(headings) && intros == old(intros) && killedIntros == old(killedIntros)
      ensures pendingIntros == old(pendingIntros) && now == old(now)
    {
      if autoplayTimer.Some? {
        liveIntervals := liveIntervals - {autoplayTimer.value.id};
        autoplayTimer := None;
      }
      if !autoplay {
        return;
      }
      var id := nextHandle;
      nextHandle := nextHandle + 1;
      autoplayTimer := Some(Interval(id, index + 1, now + interval));
      liveIntervals := {id};
    }

    /**
     * `ms` milliseconds pass. If the autoplay interval comes due within them, the clock stops at
     * its due time and it fires `goTo(index + 1)`, which moves to the next slide and restarts the
     * countdown; otherwise only the clock moves. One call fires at most once.
     */
    method Wait(ms: nat) returns (fired: bool)
      requires Valid()
      modifies this
      ensures Valid()
      ensures fired <==> old(autoplayTimer).Some? && old(autoplayTimer).value.due <= old(now) + ms
      ensures fired ==> now == old(autoplayTimer).value.due && index == HeroIndex.NextIndex(old(index), SlideCount)
      ensures fired ==> autoplayTimer.Some? && autoplayTimer.value.due == now + interval
      ensures fired ==>
        && transition == Some(old(nextHandle)) && liveTransitions == {old(nextHandle)}
        && pendingIntros == old(pendingIntros) + [index]
        && old(autoplayTimer).value.id !in liveIntervals
      ensures !fired ==> now == old(now) + ms && index == old(index) && autoplayTimer == old(autoplayTimer)
      ensures !fired ==> transition == old(transition) && liveTransitions == old(liveTransitions) && pendingIntros == old(pendingIntros)
      ensures headings == old(headings) && intros == old(intros) && killedIntros == old(killedIntros)
    {
      if autoplayTimer.None? || autoplayTimer.value.due > now + ms {
        now := now + ms;
        return false;
      }
      var tm := autoplayTimer.value;
      now := tm.due;
      // the interval schedules its own next run before its callback runs
      autoplayTimer := Some(tm.(due := tm.due + interval));
      HeroIndex.NextStep(index, SlideCount);
      GoTo(tm.target);
      fired := true;
    }

    /**
     * `playIntroForSlide(i)`: nothing without a heading; splits the heading only when it has no
     * char span yet; kills the slide's previous intro timeline; under reduced motion makes every
     * char visible and creates no timeline, otherwise starts a fresh intro timeline.
     */
    method PlayIntroForSlide(i: int, reduce: bool)
      requires Valid()
      modifies this
      ensures Valid()
      ensures !(0 <= i < |old(headings)|) ==> unchanged(this)
      ensures 0 <= i < |old(headings)| ==>
        && headings == old(headings)[i := if reduce then ShowAll(Prepared(old(headings[i]))) else Prepared(old(headings[i]))]
        && killedIntros == old(killedIntros) + (if old(intros[i]).Some? then {old(intros[i]).value} else {})
        && intros == old(intros)[i := if reduce then None else Some(old(nextHandle))]
        && nextHandle == if reduce then old(nextHandle) else old(nextHandle) + 1
      ensures index == old(index) && transition == old(transition) && liveTransitions == old(liveTransitions)
      ensures autoplayTimer == old(autoplayTimer) && pendingIntros == old(pendingIntros) && now == old(now)
    {
      if !(0 <= i < |headings|) {
        return;
      }
      PrepareHeading(i);
      KillIntro(i);
      if reduce {
        ShowAllChars(i);
        return;
      }
      StartIntro(i);
    }

    /** Reduced motion: every `.char` gets `opacity: 1` and `transform: none`. */
    method ShowAllChars(i: int)
      requires Valid() && 0 <= i < |headings|
      modifies this`headings
      ensures Valid()
      ensures headings == old(headings)[i := ShowAll(old(headings[i]))]
    {
      headings := headings[i := ShowAll(headings[i])];
    }

    /** A fresh intro timeline becomes the slide's `animRefs[i].intro`, which held none. */
    method StartIntro(i: int)
      requires Valid() && 0 <= i < |intros| && intros[i] == None
      modifies this`intros, this`nextHandle
      ensures Valid()
      ensures intros == old(intros)[i := Some(old(nextHandle))] && nextHandle == old(nextHandle) + 1
    {
      var tl := nextHandle;
      nextHandle := nextHandle + 1;
      intros := intros[i := Some(tl)];
    }

    /** `if (!heading.querySelector('.char')) splitTextToChars(heading)` */
    method PrepareHeading(i: int)
      requires Valid() && 0 <= i < |headings|
      modifies this`headings
      ensures Valid()
      ensures headings == old(headings)[i := Prepared(old(headings[i]))]
    {
      if !HasCharSpan(headings[i]) {
        SplitHeadingAt(i);
      }
    }

    /** `splitTextToChars(heading)`: the heading's text content becomes lines of hidden char spans. */
    method SplitHeadingAt(i: int)
      requires Valid() && 0 <= i < |headings|
      modifies this`headings
      ensures Valid()
      ensures headings == old(headings)[i := SplitHeading(old(headings[i]))]
    {
      var text := TextContent(headings[i]);
      var html := HeroSplit.SplitTextToChars(text);
      ParseSplit(text);
      headings := headings[i := Parse(html)];
    }

    /** Kills the slide's intro timeline, if it has one, and forgets it. */
    method KillIntro(i: int)
      requires Valid() && 0 <= i < |intros|
      modifies this`intros, this`killedIntros
      ensures Valid()
      ensures intros == old(intros)[i := None]
      ensures killedIntros == old(killedIntros) + (if old(intros[i]).Some? then {old(intros[i]).value} else {})
    {
      if intros[i].Some? {
        killedIntros := killedIntros + {intros[i].value};
        intros := intros[i := None];
      }
    }

    /**
     * The run-once heading effect on mount: kills any intro timelines, splits every slide's heading
     * (without the `.char` guard) and plays the intro of the current slide. The intro is played
     * after the loop rather than inside it; the iterations touch different slides, so the outcome
     * is the same.
     */
    method SetupHeadings(reduce: bool)
      requires Valid()
      modifies this
      ensures Valid()
      ensures forall k :: 0 <= k < SlideCount && k != index ==>
        headings[k] == SplitHeading(old(headings[k])) && intros[k] == None
      ensures headings[index] == (if reduce then ShowAll(Prepared(SplitHeading(old(headings[index])))) else Prepared(SplitHeading(old(headings[index]))))
      ensures intros[index] == (if reduce then None else Some(old(nextHandle)))
      ensures killedIntros == old(killedIntros) + IntroIds(old(intros), SlideCount)
      ensures index == old(index) && transition == old(transition) && liveTransitions == old(liveTransitions)
      ensures autoplayTimer == old(autoplayTimer) && pendingIntros == old(pendingIntros) && now == old(now)
    {
      KillAllIntros();
      SplitAllHeadings();
      PlayIntroForSlide(index, reduce);
    }

    /** Kills every slide's intro timeline and empties `animRefs`. */
    method KillAllIntros()
      requires Valid()
      modifies this`intros, this`killedIntros
      ensures Valid()
      ensures forall k :: 0 <= k < SlideCount ==> intros[k] == None
      ensures killedIntros == old(killedIntros) + IntroIds(old(intros), SlideCount)
    {
      for k := 0 to SlideCount
        invariant Valid()
        invariant forall j :: 0 <= j < k ==> intros[j] == None
        invariant forall j :: k <= j < SlideCount ==> intros[j] == old(intros[j])
        invariant killedIntros == old(killedIntros) + IntroIds(old(intros), k)
      {
        KillIntro(k);
      }
    }

    /** `splitTextToChars` on every slide's heading, unconditionally. */
    method SplitAllHeadings()
      requires Valid()
      modifies this`headings
      ensures Valid()
      ensures forall k :: 0 <= k < SlideCount ==> headings[k] == SplitHeading(old(headings[k]))
    {
      for k := 0 to SlideCount
        invariant Valid()
        invariant forall j :: 0 <= j < k ==> headings[j] == SplitHeading(old(headings[j]))
        invariant forall j :: k <= j < SlideCount ==> headings[j] == old(headings[j])
      {
        SplitHeadingAt(k);
      }
    }

    /** Mounting runs the autoplay effect, then the heading effect. */
    method Mount(reduce: bool)
      requires Valid()
      modifies this
      ensures Valid()
      ensures index == old(index) && now == old(now)
      ensures transition == old(transition) && liveTransitions == old(liveTransitions) && pendingIntros == old(pendingIntros)
      ensures autoplay ==> autoplayTimer.Some? && autoplayTimer.value.target == index + 1 && autoplayTimer.value.due == now + interval
      ensures autoplay ==> liveIntervals == {autoplayTimer.value.id}
      ensures !autoplay ==> autoplayTimer == old(autoplayTimer)
      ensures forall k :: 0 <= k < SlideCount && k != index ==>
        headings[k] == SplitHeading(old(headings[k])) && intros[k] == None
      ensures headings[index] == (if reduce then ShowAll(Prepared(SplitHeading(old(headings[index])))) else Prepared(SplitHeading(old(headings[index]))))
      ensures intros[index] == (if reduce then None else Some(old(nextHandle) + (if autoplay then 1 else 0)))
      ensures killedIntros == old(killedIntros) + IntroIds(old(intros), SlideCount)
    {
      AutoplayEffect();
      SetupHeadings(reduce);
    }

    /**
     * The oldest pending 80 ms timeout queued by `goTo` fires and plays that slide's intro.
     * Nothing cancels these timeouts, so this also happens after `Unmount`.
     */
    method FireIntroTimeout(reduce: bool)
      requires Valid()
      modifies this
      ensures Valid()
      ensures old(pendingIntros) == [] ==> unchanged(this)
      ensures old(pendingIntros) != [] ==>
        && pendingIntros == old(pendingIntros)[1..]
        && headings == old(headings)[old(pendingIntros)[0] := if reduce then ShowAll(Prepared(old(headings[pendingIntros[0]]))) else Prepared(old(headings[pendingIntros[0]]))]
        && intros == old(intros)[old(pendingIntros)[0] := if reduce then None else Some(old(nextHandle))]
        && killedIntros == old(killedIntros) + (if old(intros[pendingIntros[0]]).Some? then {old(intros[pendingIntros[0]]).value} else {})
      ensures index == old(index) && transition == old(transition) && liveTransitions == old(liveTransitions)
      ensures autoplayTimer == old(autoplayTimer) && liveIntervals == old(liveIntervals) && now == old(now)
    {
      if pendingIntros == [] {
        return;
      }
      var i := pendingIntros[0];
      pendingIntros := pendingIntros[1..];
      PlayIntroForSlide(i, reduce);
    }

    /**
     * Unmount: the autoplay cleanup clears the interval, the heading cleanup kills every intro
     * timeline and empties `animRefs`, and the unmount effect kills the transition timeline
     * (leaving it referenced in `tlRef`). The pending intro timeouts stay queued.
     */
    method Unmount()
      requires Valid()
      modifies this
      ensures Valid()
      ensures liveTransitions == {} && liveIntervals == {} && autoplayTimer == None
      ensures forall k :: 0 <= k < SlideCount ==> intros[k] == None
      ensures killedIntros == old(killedIntros) + IntroIds(old(intros), SlideCount)
      ensures pendingIntros == old(pendingIntros) && index == old(index) && headings == old(headings)
      ensures transition == old(transition) && now == old(now)
    {
      AutoplayCleanup();
      KillAllIntros();
      liveTransitions := {};
    }
  }

  /**
   * Both slide titles have letters, so once the mount effect has split a heading, the intro's
   * `.char` guard keeps it: every later `playIntroForSlide` leaves its lines and characters as they are.
   */
  lemma TitlesSplitOnce(i: int)
    requires 0 <= i < SlideCount
    ensures HasCharSpan(SplitHeading(Plain(Slides[i].title)))
    ensures Prepared(SplitHeading(Plain(Slides[i].title))) == SplitHeading(Plain(Slides[i].title))
    ensures Chars(SplitHeading(Plain(Slides[i].title)).lines) == HeroSplit.SplitLines(Slides[i].title)
  {
    assert Slides[i].title[0] != '\n';
    PreparedIdempotent(Slides[i].title, 0);
  }

  /**
   * Autoplay with a 1000 ms interval and no interaction: each of three elapsed intervals moves
   * to the next slide exactly once (two slides: 0, 1, 0, 1).
   */
  method ThreeAutoplayTicks() returns (visited: seq<int>)
    ensures visited == [1, 0, 1]
  {
    var s := new HeroSlider(true, 1000);
    s.AutoplayEffect();
    var f := s.Wait(1000);
    visited := [s.index];
    f := s.Wait(1000);
    visited := visited + [s.index];
    f := s.Wait(1000);
    visited := visited + [s.index];
  }

  /**
   * Manual navigation restarts the countdown: with a 1000 ms interval, `next()` at 900 ms means
   * nothing fires at 1000 ms or before 1900 ms, and the autoplay step comes at 1900 ms.
   */
  method ManualNextRestartsCountdown() returns (firedBefore1900: bool, indexAt1899: int, indexAt1900: int)
    ensures !firedBefore1900 && indexAt1899 == 1 && indexAt1900 == 0
  {
    var s := new HeroSlider(true, 1000);
    s.AutoplayEffect();
    var f := s.Wait(900);
    s.Next();
    firedBefore1900 := s.Wait(999);
    indexAt1899 := s.index;
    f := s.Wait(1);
    indexAt1900 := s.index;
  }

  /** With `autoplay` off no interval is installed, so no amount of waiting changes the slide. */
  method NoAutoplayNoAdvance(ms: nat) returns (fired: bool, index: int)
    ensures !fired && index == 0
  {
    var s := new HeroSlider(false, 7000);
    s.Mount(false);
    fired := s.Wait(ms);
    index := s.index;
  }
}

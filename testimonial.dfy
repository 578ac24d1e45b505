/**
 * The play/pause state machine of app/components/TestimonialSlider.tsx: the marquee timeline and
 * the per-card float tweens built by the marquee effect, the sparkle elements and tweens rebuilt by
 * the sparkle effect, and how `togglePlay`, pointer/focus enter and leave, and the Space key pause
 * and resume them.
 */
module Testimonial {
  import opened Handles

  /** A GSAP timeline or tween, reduced to its identity and whether it is paused. */
  datatype Tween = Tween(id: Handle, paused: bool)

  /** What play/pause acts on: `tlRef`, `floatTweens`, `sparkleTweens` and `isPlaying`. */
  datatype PlayState = PlayState(tl: Option<Tween>, floats: seq<Tween>, sparkles: seq<Tween>, isPlaying: bool)

  /** `count` in the sparkle effect. */
  const SparkleCount: nat := 28

  /** The same tweens with every one paused (`p`) or resumed (`!p`). */
  function WithPaused(ts: seq<Tween>, p: bool): (r: seq<Tween>)
    ensures |r| == |ts|
    ensures forall k :: 0 <= k < |r| ==> r[k].id == ts[k].id && r[k].paused == p
  {
    seq(|ts|, k requires 0 <= k < |ts| => ts[k].(paused := p))
  }

  predicate AllPaused(ts: seq<Tween>, p: bool)
  {
    forall k :: 0 <= k < |ts| ==> ts[k].paused == p
  }

  /** Pausing or resuming twice is the same as doing the last one. */
  lemma WithPausedTwice(ts: seq<Tween>, p: bool, q: bool)
    ensures WithPaused(WithPaused(ts, p), q) == WithPaused(ts, q)
  {
  }

  /** Pausing what is already paused (or resuming what runs) changes nothing. */
  lemma WithPausedFixed(ts: seq<Tween>, p: bool)
    requires AllPaused(ts, p)
    ensures WithPaused(ts, p) == ts
  {
    var r := WithPaused(ts, p);
    assert forall k :: 0 <= k < |ts| ==> r[k] == ts[k];
  }

  /** `s` agrees with itself: every timeline and tween is paused exactly when `isPlaying` is false. */
  predicate Synced(s: PlayState)
  {
    s.tl.Some? ==>
      && s.tl.value.paused == !s.isPlaying
      && AllPaused(s.floats, !s.isPlaying)
      && AllPaused(s.sparkles, !s.isPlaying)
  }

  /** Play/pause creates and kills nothing: the same timeline and tweens, only their paused flags differ. */
  predicate SameTweens(r: PlayState, s: PlayState)
  {
    && (r.tl.Some? <==> s.tl.Some?)
    && (r.tl.Some? ==> r.tl.value.id == s.tl.value.id)
    && |r.floats| == |s.floats| && |r.sparkles| == |s.sparkles|
    && (forall k :: 0 <= k < |r.floats| ==> r.floats[k].id == s.floats[k].id)
    && (forall k :: 0 <= k < |r.sparkles| ==> r.sparkles[k].id == s.sparkles[k].id)
  }

  /**
   * `togglePlay`: nothing under reduced motion or without a marquee timeline; otherwise a paused
   * timeline is played and everything resumed with `isPlaying` set, and a running one is paused
   * with everything else and `isPlaying` cleared.
   */
  function Toggle(s: PlayState, reduce: bool): (r: PlayState)
    ensures SameTweens(r, s)
    ensures !reduce && s.tl.Some? ==> r.isPlaying == s.tl.value.paused
    ensures reduce || s.tl.None? ==> r == s
  {
    if reduce || s.tl.None? then s
    else
      var wasPaused := s.tl.value.paused;
      PlayState(Some(s.tl.value.(paused := !wasPaused)),
                WithPaused(s.floats, !wasPaused), WithPaused(s.sparkles, !wasPaused), wasPaused)
  }

  /** `onEnter`: the timeline and the floats pause and `isPlaying` is cleared; sparkles keep going. */
  function Enter(s: PlayState): (r: PlayState)
    ensures SameTweens(r, s) && r.sparkles == s.sparkles
    ensures !r.isPlaying && (r.tl.Some? ==> r.tl.value.paused) && AllPaused(r.floats, true)
  {
    PlayState(if s.tl.Some? then Some(s.tl.value.(paused := true)) else None,
              WithPaused(s.floats, true), s.sparkles, false)
  }

  /** `onLeave`: the timeline and the floats resume and `isPlaying` is set. */
  function Leave(s: PlayState): (r: PlayState)
    ensures SameTweens(r, s) && r.sparkles == s.sparkles
    ensures r.isPlaying && (r.tl.Some? ==> !r.tl.value.paused) && AllPaused(r.floats, false)
  {
    PlayState(if s.tl.Some? then Some(s.tl.value.(paused := false)) else None,
              WithPaused(s.floats, false), s.sparkles, true)
  }

  /** A toggle always leaves everything in agreement, with `isPlaying` flipped when it was in agreement. */
  lemma ToggleSyncs(s: PlayState)
    requires s.tl.Some?
    ensures Synced(Toggle(s, false))
    ensures Synced(s) ==> Toggle(s, false).isPlaying == !s.isPlaying
  {
  }

  /**
   * Two toggles restore the timeline and bring every tween and `isPlaying` in line with it; from
   * a state in agreement they restore the state exactly.
   */
  lemma ToggleTwice(s: PlayState, reduce: bool)
    ensures !reduce && s.tl.Some? ==>
      var q := s.tl.value.paused;
      Toggle(Toggle(s, reduce), reduce) == PlayState(s.tl, WithPaused(s.floats, q), WithPaused(s.sparkles, q), !q)
    ensures Synced(s) ==> Toggle(Toggle(s, reduce), reduce) == s
  {
    if !reduce && s.tl.Some? {
      var q := s.tl.value.paused;
      WithPausedTwice(s.floats, !q, q);
      WithPausedTwice(s.sparkles, !q, q);
      assert s.tl.value.(paused := !q).(paused := q) == s.tl.value;
      if Synced(s) {
        WithPausedFixed(s.floats, q);
        WithPausedFixed(s.sparkles, q);
      }
    }
  }

  /** Entering twice is entering once, and leaving after entering restores a running state. */
  lemma EnterLeave(s: PlayState)
    ensures Enter(Enter(s)) == Enter(s)
    ensures s.isPlaying && (s.tl.Some? ==> !s.tl.value.paused) && AllPaused(s.floats, false) ==>
      Leave(Enter(s)) == s
  {
    WithPausedTwice(s.floats, true, true);
    WithPausedTwice(s.floats, true, false);
    if AllPaused(s.floats, false) {
      WithPausedFixed(s.floats, false);
    }
  }

  /** The ids of a list of tweens. */
  function Ids(ts: seq<Tween>): set<Handle>
  {
    if ts == [] then {} else Ids(ts[..|ts| - 1]) + {ts[|ts| - 1].id}
  }

  /** The elements of a list of handles. */
  function Elems(hs: seq<Handle>): set<Handle>
  {
    if hs == [] then {} else Elems(hs[..|hs| - 1]) + {hs[|hs| - 1]}
  }

  class TestimonialSlider {
    /** `prefersReduce`, read once per render and the same for the component's life here. */
    const reduce: bool
    var isPlaying: bool
    var tl: Option<Tween>
    var floats: seq<Tween>
    var sparkles: seq<Tween>
    var sparkleEls: seq<Handle>
    /** The sparkle elements attached to the sparkle layer. */
    var layer: set<Handle>
    /** Every timeline and tween killed so far. */
    var killed: set<Handle>
    /** Whether the marquee effect's pointer, focus and keydown listeners are attached. */
    var listening: bool
    /** Whether the sparkle effect returned its cleanup. */
    var sparkleArmed: bool
    var nextHandle: Handle

    function Snapshot(): PlayState
      reads this
    {
      PlayState(tl, floats, sparkles, isPlaying)
    }

    ghost predicate Valid()
      reads this
    {
      && (tl.Some? ==> tl.value.id < nextHandle)
      && (forall k :: 0 <= k < |floats| ==> floats[k].id < nextHandle)
      && (forall k :: 0 <= k < |sparkles| ==> sparkles[k].id < nextHandle)
      && (forall k :: 0 <= k < |sparkleEls| ==> sparkleEls[k] < nextHandle && sparkleEls[k] in layer)
      && (forall h :: h in killed ==> h < nextHandle)
      // two tweens per sparkle element
      && |sparkles| == 2 * |sparkleEls|
      // the listeners exist only once a marquee timeline does
      && (listening ==> tl.Some?)
    }

    /** `useState(true)`: playing, with nothing built yet. */
    constructor (reduce: bool)
      ensures Valid() && this.reduce == reduce
      ensures isPlaying && tl == None && floats == [] && sparkles == [] && sparkleEls == []
      ensures !listening && !sparkleArmed && killed == {} && layer == {}
    {
      this.reduce := reduce;
      isPlaying := true;
      tl := None;
      floats := [];
      sparkles := [];
      sparkleEls := [];
      layer := {};
      killed := {};
      listening := false;
      sparkleArmed := false;
      nextHandle := 0;
    }

    /** `ts.forEach(t => t.kill())` */
    method KillTweens(ts: seq<Tween>)
      requires Valid()
      requires forall k :: 0 <= k < |ts| ==> ts[k].id < nextHandle
      modifies this`killed
      ensures Valid()
      ensures killed == old(killed) + Ids(ts)
    {
      for i := 0 to |ts|
        invariant killed == old(killed) + Ids(ts[..i])
        invariant forall h :: h in killed ==> h < nextHandle
      {
        assert ts[..i + 1][..i] == ts[..i];
        killed := killed + {ts[i].id};
      }
      assert ts[..|ts|] == ts;
    }

    /** `ts.forEach(t => t.pause())` or `ts.forEach(t => t.resume())`, as a new list. */
    method SetPaused(ts: seq<Tween>, p: bool) returns (r: seq<Tween>)
      ensures r == WithPaused(ts, p)
    {
      r := ts;
      for i := 0 to |ts|
        invariant |r| == |ts|
        invariant forall k :: 0 <= k < i ==> r[k] == ts[k].(paused := p)
        invariant forall k :: i <= k < |ts| ==> r[k] == ts[k]
      {
        r := r[i := r[i].(paused := p)];
      }
    }

    /** `togglePlay` */
    method TogglePlay()
      requires Valid()
      modifies this`tl, this`floats, this`sparkles, this`isPlaying
      ensures Valid()
      ensures Snapshot() == Toggle(old(Snapshot()), reduce)
    {
      if reduce {
        return;
      }
      if tl.None? {
        return;
      }
      var wasPaused := tl.value.paused;
      tl := Some(tl.value.(paused := !wasPaused));
      floats := SetPaused(floats, !wasPaused);
      sparkles := SetPaused(sparkles, !wasPaused);
      isPlaying := wasPaused;
    }

    /** `onEnter`, attached to pointerenter and focusin while the listeners are attached. */
    method OnEnter()
      requires Valid()
      modifies this`tl, this`floats, this`isPlaying
      ensures Valid()
      ensures Snapshot() == if old(listening) then Enter(old(Snapshot())) else old(Snapshot())
    {
      if !listening {
        return;
      }
      if tl.Some? {
        tl := Some(tl.value.(paused := true));
      }
      floats := SetPaused(floats, true);
      isPlaying := false;
    }

    /** `onLeave`, attached to pointerleave and focusout while the listeners are attached. */
    method OnLeave()
      requires Valid()
      modifies this`tl, this`floats, this`isPlaying
      ensures Valid()
      ensures Snapshot() == if old(listening) then Leave(old(Snapshot())) else old(Snapshot())
    {
      if !listening {
        return;
      }
      if tl.Some? {
        tl := Some(tl.value.(paused := false));
      }
      floats := SetPaused(floats, false);
      isPlaying := true;
    }

    /**
     * The window keydown handler: Space (`' '` or `'Spacebar'`) toggles playback, but only when
     * the focused element is inside the section; every other key, and Space from outside, is ignored.
     */
    method OnKey(key: string, focusInside: bool)
      requires Valid()
      modifies this`tl, this`floats, this`sparkles, this`isPlaying
      ensures Valid()
      ensures Snapshot() ==
        if old(listening) && focusInside && (key == " " || key == "Spacebar")
        then Toggle(old(Snapshot()), reduce)
        else old(Snapshot())
    {
      if !listening {
        return;
      }
      if !focusInside {
        return;
      }
      if key == " " || key == "Spacebar" {
        TogglePlay();
      }
    }

    /** The marquee effect's opening: the previous timeline and float tweens are killed, the floats dropped. */
    method KillMarquee()
      requires Valid()
      modifies this`killed, this`floats
      ensures Valid()
      ensures floats == []
      ensures killed == old(killed) + (if tl.Some? then {tl.value.id} else {}) + Ids(old(floats))
    {
      if tl.Some? {
        killed := killed + {tl.value.id};
      }
      KillTweens(floats);
      floats := [];
    }

    /**
     * The marquee effect, run after every change of `isPlaying` (React having run the previous
     * cleanup): with the wrapper and track present, the old timeline and floats are killed; under
     * reduced motion or with no original cards nothing is built; otherwise a new timeline, paused
     * exactly when `isPlaying` is false, and one running float tween per card are built and the
     * listeners attached.
     */
    method MarqueeEffect(present: bool, originals: nat, cards: nat)
      requires Valid() && !listening
      modifies this`killed, this`floats, this`tl, this`listening, this`nextHandle
      ensures Valid()
      ensures !present ==> killed == old(killed) && floats == old(floats) && tl == old(tl) && !listening
      ensures present ==>
        killed == old(killed) + (if old(tl).Some? then {old(tl).value.id} else {}) + Ids(old(floats))
      ensures present && (reduce || originals == 0) ==> floats == [] && tl == old(tl) && !listening
      ensures present && !reduce && originals > 0 ==>
        && tl == Some(Tween(old(nextHandle), !isPlaying))
        && |floats| == cards
        && (forall k :: 0 <= k < cards ==> floats[k] == Tween(old(nextHandle) + 1 + k, false))
        && listening
    {
      if !present {
        return;
      }
      KillMarquee();
      if reduce {
        return;
      }
      if originals == 0 {
        return;
      }
      ghost var killedNow := killed;
      var t := nextHandle;
      nextHandle := nextHandle + 1;
      tl := Some(Tween(t, false));
      for i := 0 to cards
        invariant killed == killedNow && !listening
        invariant |floats| == i && nextHandle == t + 1 + i
        invariant forall k :: 0 <= k < i ==> floats[k] == Tween(t + 1 + k, false)
        invariant tl == Some(Tween(t, false))
      {
        floats := floats + [Tween(nextHandle, false)];
        nextHandle := nextHandle + 1;
      }
      if !isPlaying {
        tl := Some(Tween(t, true));
      }
      listening := true;
    }

    /** The marquee cleanup: listeners detached, timeline and floats killed (both stay referenced). */
    method MarqueeCleanup()
      requires Valid()
      modifies this`listening, this`killed
      ensures Valid() && !listening
      ensures old(listening) ==> killed == old(killed) + {tl.value.id} + Ids(floats)
      ensures !old(listening) ==> killed == old(killed)
    {
      if !listening {
        return;
      }
      listening := false;
      killed := killed + {tl.value.id};
      KillTweens(floats);
    }

    /** `els.forEach(e => e.remove())` */
    method RemoveElements(els: seq<Handle>)
      modifies this`layer
      ensures layer == old(layer) - Elems(els)
    {
      for i := 0 to |els|
        invariant layer == old(layer) - Elems(els[..i])
      {
        assert els[..i + 1][..i] == els[..i];
        layer := layer - {els[i]};
      }
      assert els[..|els|] == els;
    }

    /** The sparkle rebuild's opening: tweens killed and dropped, elements removed and dropped. */
    method ClearSparkles()
      requires Valid()
      modifies this`killed, this`sparkles, this`sparkleEls, this`layer
      ensures Valid()
      ensures sparkles == [] && sparkleEls == []
      ensures killed == old(killed) + Ids(old(sparkles))
      ensures layer == old(layer) - Elems(old(sparkleEls))
    {
      KillTweens(sparkles);
      sparkles := [];
      RemoveElements(sparkleEls);
      sparkleEls := [];
    }

    /** The sparkle loop: `SparkleCount` fresh elements attached, each followed by its two running tweens. */
    method AddSparkles()
      requires Valid() && sparkles == [] && sparkleEls == []
      modifies this`sparkles, this`sparkleEls, this`layer, this`nextHandle
      ensures Valid()
      ensures |sparkleEls| == SparkleCount && |sparkles| == 2 * SparkleCount
      ensures forall k :: 0 <= k < SparkleCount ==> sparkleEls[k] == old(nextHandle) + 3 * k
      ensures forall k :: 0 <= k < SparkleCount ==>
        sparkles[2 * k] == Tween(old(nextHandle) + 3 * k + 1, false) &&
        sparkles[2 * k + 1] == Tween(old(nextHandle) + 3 * k + 2, false)
      ensures layer == old(layer) + Elems(sparkleEls)
    {
      var base := nextHandle;
      for i := 0 to SparkleCount
        invariant |sparkleEls| == i && |sparkles| == 2 * i && nextHandle == base + 3 * i
        invariant forall k :: 0 <= k < i ==> sparkleEls[k] == base + 3 * k
        invariant forall k :: 0 <= k < i ==> sparkles[2 * k] == Tween(base + 3 * k + 1, false)
        invariant forall k :: 0 <= k < i ==> sparkles[2 * k + 1] == Tween(base + 3 * k + 2, false)
        invariant layer == old(layer) + Elems(sparkleEls)
        invariant forall k :: 0 <= k < i ==> sparkleEls[k] in layer
        invariant forall k :: 0 <= k < 2 * i ==> sparkles[k].id < nextHandle
      {
        AddSparkle();
      }
    }

    /** One loop iteration: the element is appended to the layer and tracked, then `push(t1, t2)`. */
    method AddSparkle()
      modifies this`sparkles, this`sparkleEls, this`layer, this`nextHandle
      ensures sparkleEls == old(sparkleEls) + [old(nextHandle)] && layer == old(layer) + {old(nextHandle)}
      ensures sparkles == old(sparkles) + [Tween(old(nextHandle) + 1, false), Tween(old(nextHandle) + 2, false)]
      ensures nextHandle == old(nextHandle) + 3
      ensures Elems(sparkleEls) == Elems(old(sparkleEls)) + {old(nextHandle)}
    {
      var el := nextHandle;
      layer := layer + {el};
      assert (sparkleEls + [el])[..|sparkleEls|] == sparkleEls;
      sparkleEls := sparkleEls + [el];
      sparkles := sparkles + [Tween(nextHandle + 1, false), Tween(nextHandle + 2, false)];
      nextHandle := nextHandle + 3;
    }

    /**
     * The sparkle effect: nothing under reduced motion or without the layer and track; otherwise
     * the previous sparkles are cleared, and, when original cards exist, exactly `SparkleCount`
     * new elements are attached, each with its two running tweens.
     */
    method SparkleEffect(present: bool, originals: nat)
      requires Valid() && !sparkleArmed
      modifies this`killed, this`sparkles, this`sparkleEls, this`layer, this`nextHandle, this`sparkleArmed
      ensures Valid()
      ensures reduce || !present ==>
        && sparkles == old(sparkles) && sparkleEls == old(sparkleEls) && !sparkleArmed
        && killed == old(killed) && layer == old(layer) && nextHandle == old(nextHandle)
      ensures !reduce && present ==> killed == old(killed) + Ids(old(sparkles))
      ensures !reduce && present && originals == 0 ==>
        && sparkles == [] && sparkleEls == [] && !sparkleArmed
        && layer == old(layer) - Elems(old(sparkleEls)) && nextHandle == old(nextHandle)
      ensures !reduce && present && originals > 0 ==>
        && |sparkleEls| == SparkleCount && |sparkles| == 2 * SparkleCount && sparkleArmed
        && (forall k :: 0 <= k < SparkleCount ==>
              && sparkleEls[k] == old(nextHandle) + 3 * k
              && sparkles[2 * k] == Tween(old(nextHandle) + 3 * k + 1, false)
              && sparkles[2 * k + 1] == Tween(old(nextHandle) + 3 * k + 2, false))
        && layer == old(layer) - Elems(old(sparkleEls)) + Elems(sparkleEls)
    {
      if reduce {
        return;
      }
      if !present {
        return;
      }
      ClearSparkles();
      if originals == 0 {
        return;
      }
      AddSparkles();
      sparkleArmed := true;
    }

    /** The sparkle cleanup leaves no sparkle tween and no sparkle element tracked. */
    method SparkleCleanup()
      requires Valid()
      modifies this`killed, this`sparkles, this`sparkleEls, this`layer, this`sparkleArmed
      ensures Valid() && !sparkleArmed
      ensures old(sparkleArmed) ==>
        && sparkles == [] && sparkleEls == []
        && killed == old(killed) + Ids(old(sparkles))
        && layer == old(layer) - Elems(old(sparkleEls))
      ensures !old(sparkleArmed) ==>
        sparkles == old(sparkles) && sparkleEls == old(sparkleEls) && killed == old(killed) && layer == old(layer)
    {
      if !sparkleArmed {
        return;
      }
      sparkleArmed := false;
      ClearSparkles();
    }
  }

  /**
   * Hovering pauses the marquee and clears `isPlaying`; because `isPlaying` is a dependency of the
   * marquee effect, React then rebuilds it: the new timeline starts paused, but the new float
   * tweens run although `isPlaying` is false.
   */
  method HoverThenRebuild() returns (playing: bool, timelinePaused: bool, floatsRunning: bool)
    ensures !playing && timelinePaused && floatsRunning
  {
    var s := new TestimonialSlider(false);
    s.MarqueeEffect(true, 3, 6);
    s.OnEnter();
    s.MarqueeCleanup();
    s.MarqueeEffect(true, 3, 6);
    playing := s.isPlaying;
    timelinePaused := s.tl.Some? && s.tl.value.paused;
    floatsRunning := |s.floats| == 6 && AllPaused(s.floats, false);
  }

  /**
   * Two presses of Space inside the built section, each followed by the marquee rebuild React runs
   * because `isPlaying` changed: the first leaves a paused timeline with `isPlaying` false, the
   * second a running one with `isPlaying` true.
   */
  method SpaceTwice() returns (playingAfterOne: bool, pausedAfterOne: bool, playingAfterTwo: bool, pausedAfterTwo: bool)
    ensures !playingAfterOne && pausedAfterOne && playingAfterTwo && !pausedAfterTwo
  {
    var s := new TestimonialSlider(false);
    s.MarqueeEffect(true, 3, 6);
    s.OnKey(" ", true);
    s.MarqueeCleanup();
    s.MarqueeEffect(true, 3, 6);
    playingAfterOne := s.isPlaying;
    pausedAfterOne := s.tl.Some? && s.tl.value.paused;
    s.OnKey("Spacebar", true);
    s.MarqueeCleanup();
    s.MarqueeEffect(true, 3, 6);
    playingAfterTwo := s.isPlaying;
    pausedAfterTwo := s.tl.Some? && s.tl.value.paused;
  }
}

/**
 * The portfolio preview of app/components/PortfolioSection.tsx: which project is active, how the
 * arrow keys and thumbnail hover/focus change it, the reduced-motion title swap, the once-only
 * background particles and the keydown listener the navigation effect adds and removes.
 */
module Portfolio {
  import opened Handles

  datatype Project = Project(id: string, title: string)

  /** `projects`: five entries with distinct ids. */
  const Projects: seq<Project> := [
    Project("p1", "Celtic shades"),
    Project("p2", "QMA Canada"),
    Project("p3", "Fashion Editorial Video"),
    Project("p4", "E-Commerce Experience"),
    Project("p5", "Creative Brand Campaign")
  ]

  /** `particleCount` in the background-layer effect. */
  const ParticleCount: nat := 6

  /** `ps.findIndex(p => p.id === id)`: the first position holding `id`, or -1 when none does. */
  function FindIndex(ps: seq<Project>, id: string): (k: int)
    ensures -1 <= k < |ps|
    ensures k >= 0 ==> ps[k].id == id && forall j :: 0 <= j < k ==> ps[j].id != id
    ensures k == -1 <==> forall j :: 0 <= j < |ps| ==> ps[j].id != id
  {
    if ps == [] then -1
    else if ps[0].id == id then 0
    else
      var r := FindIndex(ps[1..], id);
      if r == -1 then -1 else r + 1
  }

  /** `ps.find(p => p.id === id)?.title ?? ''` */
  function TitleOf(ps: seq<Project>, id: string): (t: string)
    ensures FindIndex(ps, id) >= 0 ==> t == ps[FindIndex(ps, id)].title
    ensures FindIndex(ps, id) == -1 ==> t == ""
  {
    if ps == [] then ""
    else if ps[0].id == id then ps[0].title
    else TitleOf(ps[1..], id)
  }

  predicate DistinctIds(ps: seq<Project>)
  {
    forall a, b :: 0 <= a < b < |ps| ==> ps[a].id != ps[b].id
  }

  /** With distinct ids, looking up a project's id finds that project. */
  lemma FindIndexOfDistinct(ps: seq<Project>, t: int)
    requires DistinctIds(ps) && 0 <= t < |ps|
    ensures FindIndex(ps, ps[t].id) == t
  {
    var k := FindIndex(ps, ps[t].id);
    assert k >= 0;
  }

  lemma ProjectIdsDistinct()
    ensures DistinctIds(Projects)
  {
  }

  /** The position ArrowDown selects: `Math.min(projects.length - 1, idx + 1)`. */
  function ArrowDownIndex(idx: int, len: int): (r: int)
    ensures r <= idx + 1 && r <= len - 1
    ensures r == idx + 1 || r == len - 1
  {
    if len - 1 < idx + 1 then len - 1 else idx + 1
  }

  /** The position ArrowUp selects: `Math.max(0, idx - 1)`. */
  function ArrowUpIndex(idx: int): (r: int)
    ensures r >= idx - 1 && r >= 0
    ensures r == idx - 1 || r == 0
  {
    if 0 > idx - 1 then 0 else idx - 1
  }

  /**
   * ArrowDown moves one project on and stays on the last one; from no match (-1) it selects the
   * first. ArrowUp moves one back and stays on the first; from no match it selects the first too.
   */
  lemma ArrowsClamp(idx: int, len: int)
    requires len > 0 && -1 <= idx < len
    ensures 0 <= ArrowDownIndex(idx, len) < len && 0 <= ArrowUpIndex(idx) < len
    ensures ArrowDownIndex(idx, len) == if idx == len - 1 then idx else idx + 1
    ensures ArrowUpIndex(idx) == if idx <= 0 then 0 else idx - 1
  {
  }

  /** Away from the ends, ArrowUp undoes ArrowDown and ArrowDown undoes ArrowUp. */
  lemma ArrowsUndoEachOther(idx: int, len: int)
    requires 0 <= idx < len
    ensures idx < len - 1 ==> ArrowUpIndex(ArrowDownIndex(idx, len)) == idx
    ensures idx > 0 ==> ArrowDownIndex(ArrowUpIndex(idx), len) == idx
  {
  }

  /** `len - 1` presses of ArrowDown from the first project reach the last one. */
  function PressDown(idx: int, len: int, m: nat): int
  {
    if m == 0 then idx else ArrowDownIndex(PressDown(idx, len, m - 1), len)
  }

  lemma {:induction false} PressDownReachesEnd(idx: int, len: int, m: nat)
    requires 0 <= idx < len
    ensures PressDown(idx, len, m) == if idx + m < len then idx + m else len - 1
  {
    if m > 0 { PressDownReachesEnd(idx, len, m - 1); }
  }

  class PortfolioSection {
    /** `activeId` state. */
    var activeId: string
    /** The preview title element's text, as the reduced-motion branch writes it. */
    var titleText: string
    /** The cross-fade timeline of the latest preview swap, and the timelines killed so far. */
    var swapTimeline: Option<Handle>
    var killed: set<Handle>
    /** `bg.dataset.inited` and the `.pp-glow` discs appended to the background layer. */
    var particlesInited: bool
    var glows: seq<Handle>
    /** The window keydown listener the navigation effect registered, and all it has registered. */
    var keyListener: Option<Handle>
    var keyListeners: set<Handle>
    var nextHandle: Handle

    /**
     * The active id is always one of the projects' ids: the constructor establishes it and the only
     * methods that set `activeId` keep it; no other method may modify `activeId`.
     */
    ghost predicate ActiveIsProject()
      reads this`activeId
    {
      0 <= FindIndex(Projects, activeId) < |Projects|
    }

    ghost predicate Valid()
      reads this`swapTimeline, this`killed, this`particlesInited, this`glows
      reads this`keyListener, this`keyListeners, this`nextHandle
    {
      // at most one keydown listener is registered, the one the effect holds
      && keyListeners == (if keyListener.Some? then {keyListener.value} else {})
      && (keyListener.Some? ==> keyListener.value < nextHandle)
      && (swapTimeline.Some? ==> swapTimeline.value < nextHandle && swapTimeline.value !in killed)
      && (forall h :: h in killed ==> h < nextHandle)
      && (forall k :: 0 <= k < |glows| ==> glows[k] < nextHandle)
      // the discs exist exactly when the layer is marked
      && (|glows| == if particlesInited then ParticleCount else 0)
    }

    /** `useState(projects[0].id)`; the background layer starts unmarked and empty. */
    constructor ()
      ensures Valid() && ActiveIsProject()
      ensures activeId == Projects[0].id && FindIndex(Projects, activeId) == 0
      ensures !particlesInited && glows == [] && keyListener == None && swapTimeline == None
    {
      activeId := Projects[0].id;
      titleText := "";
      swapTimeline := None;
      killed := {};
      particlesInited := false;
      glows := [];
      keyListener := None;
      keyListeners := {};
      nextHandle := 0;
    }

    /** A thumbnail's `onMouseEnter` and `onFocus`: that project becomes active. */
    method OnThumbnailEnterOrFocus(p: int)
      requires Valid() && 0 <= p < |Projects|
      modifies this`activeId
      ensures Valid() && ActiveIsProject()
      ensures activeId == Projects[p].id && FindIndex(Projects, activeId) == p
    {
      ProjectIdsDistinct();
      FindIndexOfDistinct(Projects, p);
      activeId := Projects[p].id;
    }

    /**
     * The keydown handler: ArrowDown selects the next project but never passes the last,
     * ArrowUp the previous one but never passes the first; other keys change nothing. It runs
     * only while the navigation effect's listener is registered.
     */
    method OnKey(key: string)
      requires Valid() && keyListener.Some?
      modifies this`activeId
      ensures Valid()
      ensures key == "ArrowDown" ==>
        FindIndex(Projects, activeId) == ArrowDownIndex(FindIndex(Projects, old(activeId)), |Projects|)
      ensures key == "ArrowUp" ==>
        FindIndex(Projects, activeId) == ArrowUpIndex(FindIndex(Projects, old(activeId)))
      ensures key != "ArrowDown" && key != "ArrowUp" ==> activeId == old(activeId)
      ensures key == "ArrowDown" || key == "ArrowUp" ==> ActiveIsProject()
    {
      var idx := FindIndex(Projects, activeId);
      if key == "ArrowDown" {
        var t := ArrowDownIndex(idx, |Projects|);
        if 0 <= t < |Projects| {
          OnThumbnailEnterOrFocus(t);
        }
      } else if key == "ArrowUp" {
        var t := ArrowUpIndex(idx);
        if 0 <= t < |Projects| {
          OnThumbnailEnterOrFocus(t);
        }
      }
    }

    /**
     * The preview-swap effect (re-run on every `activeId` change), when the preview elements
     * exist: under reduced motion the title text becomes the active project's title (or `''`)
     * and no timeline is built; otherwise a fresh cross-fade timeline is started. React has run
     * the previous cleanup first, so no swap timeline is held.
     */
    method PreviewSwapEffect(reduce: bool, elementsPresent: bool)
      requires Valid() && swapTimeline == None
      modifies this`titleText, this`swapTimeline, this`nextHandle
      ensures Valid()
      ensures !elementsPresent ==> titleText == old(titleText) && swapTimeline == old(swapTimeline) && nextHandle == old(nextHandle)
      ensures elementsPresent && reduce ==>
        titleText == TitleOf(Projects, activeId) && swapTimeline == old(swapTimeline) && nextHandle == old(nextHandle)
      ensures elementsPresent && !reduce ==>
        titleText == old(titleText) && swapTimeline == Some(old(nextHandle))
    {
      if !elementsPresent {
        return;
      }
      if reduce {
        titleText := TitleOf(Projects, activeId);
        return;
      }
      var tl := nextHandle;
      nextHandle := nextHandle + 1;
      swapTimeline := Some(tl);
    }

    /** The preview-swap cleanup: `tl.kill()`. */
    method PreviewSwapCleanup()
      requires Valid()
      modifies this`swapTimeline, this`killed
      ensures Valid()
      ensures swapTimeline == None
      ensures killed == old(killed) + (if old(swapTimeline).Some? then {old(swapTimeline).value} else {})
    {
      if swapTimeline.Some? {
        killed := killed + {swapTimeline.value};
        swapTimeline := None;
      }
    }

    /**
     * The background-particle effect: nothing without the layer element, on touch devices or under
     * reduced motion; otherwise, only when the layer is not yet marked, it marks it and appends
     * exactly `ParticleCount` fresh discs.
     */
    method ParticleEffect(layerPresent: bool, touch: bool, reduce: bool)
      requires Valid()
      modifies this`particlesInited, this`glows, this`nextHandle
      ensures Valid()
      ensures !layerPresent || touch || reduce || old(particlesInited) ==>
        particlesInited == old(particlesInited) && glows == old(glows) && nextHandle == old(nextHandle)
      ensures layerPresent && !touch && !reduce && !old(particlesInited) ==>
        && particlesInited && |glows| == ParticleCount
        && (forall k :: 0 <= k < |glows| ==> glows[k] == old(nextHandle) + k)
    {
      if !layerPresent || touch || reduce {
        return;
      }
      if !particlesInited {
        particlesInited := true;
        AppendGlows();
      }
    }

    /** The `particleCount` loop: one fresh `.pp-glow` disc appended per iteration. */
    method AppendGlows()
      requires glows == [] && (forall h :: h in killed ==> h < nextHandle)
      modifies this`glows, this`nextHandle
      ensures |glows| == ParticleCount && nextHandle == old(nextHandle) + ParticleCount
      ensures forall k :: 0 <= k < |glows| ==> glows[k] == old(nextHandle) + k
      ensures forall h :: h in killed ==> h < nextHandle
    {
      for i := 0 to ParticleCount
        invariant |glows| == i && nextHandle == old(nextHandle) + i
        invariant forall k :: 0 <= k < i ==> glows[k] == old(nextHandle) + k
      {
        var d := nextHandle;
        nextHandle := nextHandle + 1;
        glows := glows + [d];
      }
    }

    /**
     * The keyboard-navigation effect adds its keydown listener to the window. It runs on mount
     * and, after its cleanup has removed the previous listener, on every `activeId` change.
     */
    method KeyNavEffect()
      requires Valid() && keyListener == None
      modifies this`keyListener, this`keyListeners, this`nextHandle
      ensures Valid()
      ensures keyListener == Some(old(nextHandle)) && keyListeners == old(keyListeners) + {old(nextHandle)}
      ensures keyListeners == {old(nextHandle)} && nextHandle == old(nextHandle) + 1
    {
      var l := nextHandle;
      nextHandle := nextHandle + 1;
      keyListener := Some(l);
      keyListeners := {l};
    }

    /** Its cleanup removes exactly the listener it added. */
    method KeyNavCleanup()
      requires Valid()
      modifies this`keyListener, this`keyListeners
      ensures Valid()
      ensures keyListener == None && keyListeners == {}
      ensures old(keyListener).Some? ==> old(keyListener).value !in keyListeners
    {
      keyListener := None;
      keyListeners := {};
    }
  }

  /** Running the particle effect twice on one layer appends six discs, not twelve. */
  method ParticlesOnlyOnce() returns (afterFirst: nat, afterSecond: nat)
    ensures afterFirst == ParticleCount && afterSecond == ParticleCount
  {
    var s := new PortfolioSection();
    s.ParticleEffect(true, false, false);
    afterFirst := |s.glows|;
    s.ParticleEffect(true, false, false);
    afterSecond := |s.glows|;
  }
}

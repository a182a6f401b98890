/**
  The per-session visibility state machine of the becomes-visible plugin, as
  values. A session's side data on its elements (the appeared-in-viewport
  timestamp, the timeout id and the is-visible mark, all stored under the
  session's uid) is held here in three collections of the session's own, so
  the uid itself is not needed.

  These functions are the specification of the methods of `Sessions.Session`;
  the lemmas below state what the plugin promises about them.
 */
module Tracking {
  import opened Viewport

  datatype Option<T> = None | Some(value: T)

  /** An element of the page, by identity. */
  datatype Elem = Node(id: nat)

  /** The selector a session re-resolves its elements from. */
  type Selector = string

  const DefaultDelay: int := 1000
  const DefaultCompletelyVisible: bool := false

  /** The options a caller may pass; an absent option takes its default. */
  datatype Params = Params(delay: Option<int>, completelyVisible: Option<bool>, hasCallback: bool)

  /** The fixed options of a session. */
  datatype Config = Config(delay: int, completelyVisible: bool, hasCallback: bool, selector: Selector)

  /** Merging the caller's options over the defaults. */
  function Merge(p: Params, selector: Selector): (c: Config)
    ensures c.delay == (if p.delay.Some? then p.delay.value else 1000)
    ensures c.completelyVisible == (p.completelyVisible == Some(true))
    ensures c.hasCallback == p.hasCallback && c.selector == selector
  {
    Config(
      match p.delay case Some(d) => d case None => DefaultDelay,
      match p.completelyVisible case Some(b) => b case None => DefaultCompletelyVisible,
      p.hasCallback,
      selector)
  }

  /**
    What one poll sees of the page: the window size, every element's bounding
    rectangle, the clock, and what each selector currently resolves to.
   */
  datatype Env = Env(win: Window, rectOf: Elem -> Rect, now: int, resolve: Selector -> seq<Elem>)

  /**
    The mutable part of a session: the re-select flag, the tracked elements,
    the batch of elements waiting for delivery, and the side data per element
    (`armed` holds the elements that carry a timeout id, `marked` those that
    carry the is-visible mark).
   */
  datatype State = State(
    reselect: bool,
    elements: seq<Elem>,
    batch: seq<Elem>,
    appeared: map<Elem, int>,
    armed: set<Elem>,
    marked: set<Elem>)

  /** The state right after init, before its first poll. */
  function Initial(elements: seq<Elem>): (st: State)
    ensures st.elements == elements && !st.reselect && st.batch == []
    ensures st.appeared == map[] && st.armed == {} && st.marked == {}
  {
    State(false, elements, [], map[], {}, {})
  }

  /** The appeared-in-viewport timestamp is set, in the source's sense of
      "set": present and not the falsy timestamp 0. */
  predicate Appeared(st: State, e: Elem) {
    e in st.appeared && st.appeared[e] != 0
  }

  predicate Visible(cfg: Config, env: Env, e: Elem) {
    InViewport(env.rectOf(e), env.win, cfg.completelyVisible)
  }

  /** The side data of `e` is the same in both states. */
  predicate SameData(a: State, b: State, e: Elem) {
    (e in a.appeared <==> e in b.appeared) &&
    (e in a.appeared ==> a.appeared[e] == b.appeared[e]) &&
    (e in a.armed <==> e in b.armed) &&
    (e in a.marked <==> e in b.marked)
  }

  /** One pass of the element loop of checkElements. */
  function Step(cfg: Config, env: Env, st: State, e: Elem): State {
    if e in st.marked then
      st
    else if Visible(cfg, env, e) then
      if !Appeared(st, e) then
        st.(appeared := st.appeared[e := env.now],
            armed := if e in st.armed then st.armed else st.armed + {e})
      else if env.now - st.appeared[e] >= cfg.delay then
        // both the timeout id and the (absent) is-visible mark are removed
        st.(armed := st.armed - {e}, marked := st.marked - {e}, batch := st.batch + [e])
      else
        st
    else
      st.(armed := st.armed - {e}, appeared := st.appeared - {e})
  }

  /** The element loop of checkElements over `es`, in order. */
  function Walk(cfg: Config, env: Env, st: State, es: seq<Elem>): State
    decreases |es|
  {
    if es == [] then st
    else Step(cfg, env, Walk(cfg, env, st, es[..|es| - 1]), es[|es| - 1])
  }

  /** checkElements: re-resolve the elements if a refresh asked for it, then walk them. */
  function Check(cfg: Config, env: Env, st: State): State {
    var st1 := if st.reselect then st.(elements := env.resolve(cfg.selector), reselect := false) else st;
    Walk(cfg, env, st1, st1.elements)
  }

  /** The state after a step and the batch handed to the callback, if any. */
  datatype Outcome = Outcome(st: State, handed: Option<seq<Elem>>)

  /**
    The delivery half of checkVisibleElements. A raising callback aborts the
    rest, so the batch is then not cleared (the elements are already marked).
   */
  function Deliver(cfg: Config, st: State, raises: bool): Outcome {
    if |st.batch| > 0 then
      if cfg.hasCallback then
        var st1 := st.(marked := st.marked + set x | x in st.batch);
        if raises then Outcome(st1, Some(st.batch)) else Outcome(st1.(batch := []), Some(st.batch))
      else
        Outcome(st.(batch := []), None)
    else
      Outcome(st, None)
  }

  /** checkVisibleElements, the timer callback: poll, then deliver. */
  function CheckVisible(cfg: Config, env: Env, st: State, raises: bool): Outcome {
    Deliver(cfg, Check(cfg, env, st), raises)
  }

  // ---------------------------------------------------------------------------
  // One poll

  /** What walking does to the state as a whole: the is-visible marks, the
      elements and the re-select flag stay, and the batch only grows, by
      elements of the walk that are unmarked and in the viewport. */
  lemma {:induction false} WalkFrame(cfg: Config, env: Env, st: State, es: seq<Elem>)
    ensures var r := Walk(cfg, env, st, es);
      r.marked == st.marked && r.elements == st.elements && r.reselect == st.reselect &&
      st.batch <= r.batch &&
      (forall x :: x in r.batch[|st.batch|..] ==> x in es && x !in st.marked && Visible(cfg, env, x))
    decreases |es|
  {
    if es != [] {
      var p, x := es[..|es| - 1], es[|es| - 1];
      assert es == p + [x];
      WalkFrame(cfg, env, st, p);
      var q := Walk(cfg, env, st, p);
      var r := Step(cfg, env, q, x);
      var k := |st.batch|;
      if r.batch != q.batch {
        assert r.batch == q.batch + [x];
        assert r.batch[k..] == q.batch[k..] + [x];
      }
    }
  }

  /** An element the walk does not visit keeps all its side data. */
  lemma {:induction false} WalkOthers(cfg: Config, env: Env, st: State, es: seq<Elem>, e: Elem)
    requires e !in es
    ensures SameData(st, Walk(cfg, env, st, es), e)
    decreases |es|
  {
    if es != [] {
      var p, x := es[..|es| - 1], es[|es| - 1];
      assert es == p + [x];
      WalkOthers(cfg, env, st, p, e);
    }
  }

  /** An element that already carries the is-visible mark is skipped: its
      side data is untouched and it is not added to the batch. */
  lemma {:induction false} SkipsMarked(cfg: Config, env: Env, st: State, es: seq<Elem>, e: Elem)
    requires e in st.marked
    ensures var r := Walk(cfg, env, st, es);
      SameData(st, r, e) && st.batch <= r.batch && e !in r.batch[|st.batch|..]
    decreases |es|
  {
    WalkFrame(cfg, env, st, es);
    if es != [] {
      var p := es[..|es| - 1];
      SkipsMarked(cfg, env, st, p, e);
      WalkFrame(cfg, env, st, p);
    }
  }

  /** An unmarked element that is walked while outside the viewport ends the
      poll with no appeared time and no timeout id, and is not added. */
  lemma {:induction false} ClearsOnExit(cfg: Config, env: Env, st: State, es: seq<Elem>, e: Elem)
    requires e in es && e !in st.marked && !Visible(cfg, env, e)
    ensures var r := Walk(cfg, env, st, es);
      e !in r.appeared && e !in r.armed && st.batch <= r.batch && e !in r.batch[|st.batch|..]
    decreases |es|
  {
    var p, x := es[..|es| - 1], es[|es| - 1];
    assert es == p + [x];
    WalkFrame(cfg, env, st, es);
    WalkFrame(cfg, env, st, p);
    if e in p {
      ClearsOnExit(cfg, env, st, p, e);
    }
  }

  /** A timeout id is newly recorded for `e` only by a poll that walks `e`
      unmarked, in the viewport and without an appeared time; that poll
      leaves `e` appeared at the poll's own time. So a poll never arms a
      timer for an element that already had an appeared time. */
  lemma {:induction false} ArmsOnlyOnAppearance(cfg: Config, env: Env, st: State, es: seq<Elem>, e: Elem)
    requires e !in st.armed
    ensures var r := Walk(cfg, env, st, es);
      e in r.armed ==>
        e in es && e !in st.marked && Visible(cfg, env, e) && !Appeared(st, e) &&
        e in r.appeared && r.appeared[e] == env.now
    decreases |es|
  {
    if es != [] {
      var p, x := es[..|es| - 1], es[|es| - 1];
      assert es == p + [x];
      WalkFrame(cfg, env, st, p);
      ArmsOnlyOnAppearance(cfg, env, st, p, e);
      var q := Walk(cfg, env, st, p);
      if Appeared(st, e) && Visible(cfg, env, e) {
        // a set appeared time is never dropped while `e` is visible, so no pass arms
        KeepsAppeared(cfg, env, st, p, e);
      }
    }
  }

  /** A set appeared time survives every pass over a visible element. */
  lemma {:induction false} KeepsAppeared(cfg: Config, env: Env, st: State, es: seq<Elem>, e: Elem)
    requires Appeared(st, e) && Visible(cfg, env, e)
    ensures var r := Walk(cfg, env, st, es);
      Appeared(r, e) && r.appeared[e] == st.appeared[e]
    decreases |es|
  {
    if es != [] {
      KeepsAppeared(cfg, env, st, es[..|es| - 1], e);
    }
  }

  /** How often `e` occurs in `es`. */
  function Occurrences(es: seq<Elem>, e: Elem): nat {
    multiset(es)[e]
  }

  /**
    An element walked once is added to the batch exactly when it is
    unmarked, in the viewport, and already had an appeared time at least
    `delay` before now; it is then added once and its timeout id is removed,
    its appeared time kept.
   */
  lemma {:induction false} AddsAfterDwell(cfg: Config, env: Env, st: State, es: seq<Elem>, e: Elem)
    requires Occurrences(es, e) == 1
    ensures var r := Walk(cfg, env, st, es);
      st.batch <= r.batch &&
      ((e in r.batch[|st.batch|..]) <==>
        e !in st.marked && Visible(cfg, env, e) && Appeared(st, e) &&
        env.now - st.appeared[e] >= cfg.delay) &&
      (e in r.batch[|st.batch|..] ==>
        multiset(r.batch[|st.batch|..])[e] == 1 && e !in r.armed &&
        e in r.appeared && r.appeared[e] == st.appeared[e])
    decreases |es|
  {
    var p, x := es[..|es| - 1], es[|es| - 1];
    assert es == p + [x];
    assert multiset(es) == multiset(p) + multiset{x};
    WalkFrame(cfg, env, st, es);
    WalkFrame(cfg, env, st, p);
    var q := Walk(cfg, env, st, p);
    var r := Step(cfg, env, q, x);
    var k := |st.batch|;
    if x == e {
      assert e !in p;
      WalkOthers(cfg, env, st, p, e);
      assert e !in q.batch[k..];
      if r.batch != q.batch {
        assert r.batch[k..] == q.batch[k..] + [e];
      }
    } else {
      AddsAfterDwell(cfg, env, st, p, e);
      if r.batch != q.batch {
        assert r.batch[k..] == q.batch[k..] + [x];
        assert multiset(r.batch[k..]) == multiset(q.batch[k..]) + multiset{x};
      }
    }
  }

  /** The first sighting arms the timer: an element walked once, unmarked, in
      the viewport and without an appeared time, ends the poll appeared now,
      with a timeout id, and not in the batch. */
  lemma {:induction false} FirstSightingArms(cfg: Config, env: Env, st: State, es: seq<Elem>, e: Elem)
    requires Occurrences(es, e) == 1
    requires e !in st.marked && Visible(cfg, env, e) && !Appeared(st, e)
    ensures var r := Walk(cfg, env, st, es);
      e in r.appeared && r.appeared[e] == env.now && e in r.armed &&
      st.batch <= r.batch && e !in r.batch[|st.batch|..]
    decreases |es|
  {
    var p, x := es[..|es| - 1], es[|es| - 1];
    assert es == p + [x];
    assert multiset(es) == multiset(p) + multiset{x};
    WalkFrame(cfg, env, st, p);
    var q := Walk(cfg, env, st, p);
    var r := Step(cfg, env, q, x);
    var k := |st.batch|;
    if x != e {
      FirstSightingArms(cfg, env, st, p, e);
      if r.batch != q.batch {
        assert r.batch[k..] == q.batch[k..] + [x];
      }
    } else {
      assert e !in p;
      WalkOthers(cfg, env, st, p, e);
      assert r.batch == q.batch;
    }
  }

  /** After a refresh the poll walks what the selector resolves to now. */
  lemma CheckReselects(cfg: Config, env: Env, st: State)
    ensures var r := Check(cfg, env, st);
      !r.reselect &&
      r.elements == (if st.reselect then env.resolve(cfg.selector) else st.elements) &&
      r.marked == st.marked && st.batch <= r.batch
  {
    var st1 := if st.reselect then st.(elements := env.resolve(cfg.selector), reselect := false) else st;
    WalkFrame(cfg, env, st1, st1.elements);
  }

  // ---------------------------------------------------------------------------
  // Delivery

  /** No element in the batch carries the is-visible mark. */
  predicate BatchUnmarked(st: State) {
    forall x :: x in st.batch ==> x !in st.marked
  }

  /**
    The timer callback hands the batch to the callback in at most one call,
    only when a callback is configured and the batch is not empty; exactly
    the elements handed over become marked, and the appeared times, timeout
    ids and elements stay as the poll left them. The batch is empty
    afterwards, unless the callback was called and raised: then it is still
    the batch it was handed. If no element of the batch was marked
    before, no element handed over was marked before this call.
   */
  lemma DeliveryRules(cfg: Config, env: Env, st: State, raises: bool)
    ensures var o := CheckVisible(cfg, env, st, raises);
      var c := Check(cfg, env, st);
      (o.handed.Some? <==> cfg.hasCallback && |c.batch| > 0) &&
      (o.handed.Some? ==> o.handed.value == c.batch) &&
      o.st.marked == st.marked + (if o.handed.Some? then set x | x in o.handed.value else {}) &&
      o.st.appeared == c.appeared && o.st.armed == c.armed && o.st.elements == c.elements &&
      (BatchUnmarked(st) && o.handed.Some? ==> forall x :: x in o.handed.value ==> x !in st.marked) &&
      o.st.batch == (if raises && o.handed.Some? then c.batch else []) &&
      (!raises ==> BatchUnmarked(o.st))
  {
    var st1 := if st.reselect then st.(elements := env.resolve(cfg.selector), reselect := false) else st;
    WalkFrame(cfg, env, st1, st1.elements);
  }

  /**
    The plugin's main promise, in one step: when a timer fires for an element
    walked once that is unmarked, in the viewport and past its dwell, a
    configured callback receives it and it is marked.
   */
  lemma TimerDeliversAfterDwell(cfg: Config, env: Env, st: State, raises: bool, e: Elem)
    requires !st.reselect && Occurrences(st.elements, e) == 1 && cfg.hasCallback
    requires e !in st.marked && Visible(cfg, env, e) && Appeared(st, e)
    requires env.now - st.appeared[e] >= cfg.delay
    ensures var o := CheckVisible(cfg, env, st, raises);
      o.handed.Some? && e in o.handed.value && e in o.st.marked
  {
    AddsAfterDwell(cfg, env, st, st.elements, e);
    var c := Check(cfg, env, st);
    assert e in c.batch[|st.batch|..];
  }

  /**
    Side data outlives a refresh. An element that a refresh drops from the
    session and a later refresh brings back keeps the appeared time it had;
    its first poll back adds it to the batch without a new dwell.
   */
  lemma ReturningElementSkipsDwell(cfg: Config, env1: Env, env2: Env, st: State, e: Elem)
    requires st.batch == [] && e !in st.marked && Appeared(st, e)
    requires env1.resolve(cfg.selector) == [] && env2.resolve(cfg.selector) == [e]
    requires Visible(cfg, env2, e) && env2.now - st.appeared[e] >= cfg.delay
    ensures var s1 := Apply(cfg, st, RefreshEvent(env1)).st;
      var s2 := Apply(cfg, s1, RefreshEvent(env2)).st;
      s1.elements == [] && s1.appeared[e] == st.appeared[e] && s2.elements == [e] && s2.batch == [e]
  {
    var s1 := Apply(cfg, st, RefreshEvent(env1)).st;
    assert s1 == st.(elements := [], reselect := false);
    var t := s1.(elements := [e], reselect := false);
    assert [e][..0] == [];
    assert Walk(cfg, env2, t, [e]) == Step(cfg, env2, Walk(cfg, env2, t, []), e);
  }

  // ---------------------------------------------------------------------------
  // Runs of events

  /** What reaches one session: a window event (load, resize, scroll), the
      refresh trigger, or one of its timers firing. */
  datatype Event =
    | WindowEvent(env: Env)
    | RefreshEvent(env: Env)
    | TimerFires(env: Env, raises: bool)

  function Apply(cfg: Config, st: State, ev: Event): Outcome {
    match ev
    case WindowEvent(env) => Outcome(Check(cfg, env, st), None)
    case RefreshEvent(env) => Outcome(Check(cfg, env, st.(reselect := true)), None)
    case TimerFires(env, raises) => CheckVisible(cfg, env, st, raises)
  }

  /** The final state and the batches handed to the callback, in order. */
  datatype Trace = Trace(st: State, calls: seq<seq<Elem>>)

  function Run(cfg: Config, st: State, evs: seq<Event>): Trace
    decreases |evs|
  {
    if evs == [] then Trace(st, [])
    else
      var o := Apply(cfg, st, evs[0]);
      var t := Run(cfg, o.st, evs[1..]);
      Trace(t.st, (if o.handed.Some? then [o.handed.value] else []) + t.calls)
  }

  predicate NoneRaise(evs: seq<Event>) {
    forall i :: 0 <= i < |evs| ==> !(evs[i].TimerFires? && evs[i].raises)
  }

  /** One event keeps a marked element that is out of the batch marked, out
      of the batch, and out of what is handed over. */
  lemma StaysMarked(cfg: Config, st: State, ev: Event, e: Elem)
    requires e in st.marked && e !in st.batch
    ensures var o := Apply(cfg, st, ev);
      e in o.st.marked && e !in o.st.batch && (o.handed.Some? ==> e !in o.handed.value)
  {
    var st0 := if ev.RefreshEvent? then st.(reselect := true) else st;
    var st1 := if st0.reselect then st0.(elements := ev.env.resolve(cfg.selector), reselect := false) else st0;
    WalkFrame(cfg, ev.env, st1, st1.elements);
    SkipsMarked(cfg, ev.env, st1, st1.elements, e);
  }

  /** Once delivered, never again: an element that carries the is-visible
      mark and is not waiting in the batch is never handed to the callback,
      whatever events follow, and keeps its mark; in particular it is not
      handed over again when it leaves the viewport and comes back. */
  lemma {:induction false} NeverHandedAgain(cfg: Config, st: State, evs: seq<Event>, e: Elem)
    requires e in st.marked && e !in st.batch
    ensures var t := Run(cfg, st, evs);
      e in t.st.marked && forall i :: 0 <= i < |t.calls| ==> e !in t.calls[i]
    decreases |evs|
  {
    if evs != [] {
      StaysMarked(cfg, st, evs[0], e);
      NeverHandedAgain(cfg, Apply(cfg, st, evs[0]).st, evs[1..], e);
    }
  }

  /** A window event or a timer whose callback returns keeps the batch free
      of marked elements. */
  lemma KeepsBatchUnmarked(cfg: Config, st: State, ev: Event)
    requires BatchUnmarked(st) && !(ev.TimerFires? && ev.raises)
    ensures BatchUnmarked(Apply(cfg, st, ev).st)
  {
    var st0 := if ev.RefreshEvent? then st.(reselect := true) else st;
    var st1 := if st0.reselect then st0.(elements := ev.env.resolve(cfg.selector), reselect := false) else st0;
    WalkFrame(cfg, ev.env, st1, st1.elements);
    if ev.TimerFires? {
      DeliveryRules(cfg, ev.env, st0, false);
    }
  }

  /**
    At most once per element: as long as the callback returns normally, no
    element is handed to the callback in two different calls, and an element
    marked at the start is never handed over. Every call gets a non-empty
    batch.
   */
  lemma {:induction false} AtMostOnce(cfg: Config, st: State, evs: seq<Event>, e: Elem)
    requires BatchUnmarked(st) && NoneRaise(evs)
    ensures var t := Run(cfg, st, evs);
      (forall i, j :: 0 <= i < j < |t.calls| && e in t.calls[i] ==> e !in t.calls[j]) &&
      (e in st.marked ==> (forall i :: 0 <= i < |t.calls| ==> e !in t.calls[i])) &&
      (forall i :: 0 <= i < |t.calls| ==> |t.calls[i]| > 0)
    decreases |evs|
  {
    if evs != [] {
      var ev := evs[0];
      assert !(ev.TimerFires? && ev.raises) by { assert evs[0] == ev; }
      var o := Apply(cfg, st, ev);
      var rest := evs[1..];
      assert NoneRaise(rest) by {
        forall i | 0 <= i < |rest| ensures !(rest[i].TimerFires? && rest[i].raises) {
          assert rest[i] == evs[i + 1];
        }
      }
      KeepsBatchUnmarked(cfg, st, ev);
      AtMostOnce(cfg, o.st, rest, e);
      var t := Run(cfg, o.st, rest);
      assert forall i :: 0 <= i < |Run(cfg, o.st, rest).calls| ==> |Run(cfg, o.st, rest).calls[i]| > 0;
      var calls := Run(cfg, st, evs).calls;
      if e in st.marked {
        NeverHandedAgain(cfg, st, evs, e);
      }
      if o.handed.Some? {
        assert ev.TimerFires?;
        DeliveryRules(cfg, ev.env, st, false);
        assert calls == [o.handed.value] + t.calls;
        forall i, j | 0 <= i < j < |calls| && e in calls[i] ensures e !in calls[j] {
          assert calls[j] == t.calls[j - 1];
          if i > 0 {
            assert calls[i] == t.calls[i - 1];
          } else {
            NeverHandedAgain(cfg, o.st, rest, e);
          }
        }
        forall i | 0 <= i < |calls| ensures |calls[i]| > 0 {
          if i > 0 {
            assert calls[i] == t.calls[i - 1];
          }
        }
      } else {
        assert calls == t.calls;
      }
    }
  }

  /** Leaving the viewport cancels no timer. When a timer fires after its
      element has left, its poll finds the element outside the viewport and
      clears the element's appeared time and timeout id. The timer then
      hands nothing of that element over, unless an earlier poll after its
      dwell had already added it to the batch (see
      `StaleTimerHandsBatchedLeaver`). */
  lemma StaleTimerSkipsExited(cfg: Config, env: Env, st: State, raises: bool, e: Elem)
    requires e in (if st.reselect then env.resolve(cfg.selector) else st.elements)
    requires e !in st.marked && e !in st.batch && !Visible(cfg, env, e)
    ensures var o := CheckVisible(cfg, env, st, raises);
      e !in o.st.appeared && e !in o.st.armed && (o.handed.Some? ==> e !in o.handed.value)
  {
    var st1 := if st.reselect then st.(elements := env.resolve(cfg.selector), reselect := false) else st;
    WalkFrame(cfg, env, st1, st1.elements);
    ClearsOnExit(cfg, env, st1, st1.elements, e);
    var c := Check(cfg, env, st);
    assert c.batch == st.batch + c.batch[|st.batch|..];
  }

  /** Leaving the viewport does not take an element out of the batch: a
      scroll after the dwell adds it, a scroll that finds it outside the
      viewport only clears its side data, and the stale timer then hands it
      to the callback while it is out of the viewport. */
  lemma StaleTimerHandsBatchedLeaver(cfg: Config, env1: Env, env2: Env, st: State, e: Elem)
    requires cfg.hasCallback && !st.reselect && st.elements == [e] && st.batch == []
    requires e !in st.marked && Appeared(st, e)
    requires Visible(cfg, env1, e) && env1.now - st.appeared[e] >= cfg.delay
    requires !Visible(cfg, env2, e)
    ensures var t := Run(cfg, st, [WindowEvent(env1), WindowEvent(env2), TimerFires(env2, false)]);
      t.calls == [[e]] && e in t.st.marked
  {
    assert [e][..0] == [];
    assert Walk(cfg, env1, st, [e]) == Step(cfg, env1, Walk(cfg, env1, st, []), e);
    var s1 := Check(cfg, env1, st);
    assert s1.batch == [e] && s1.elements == [e] && !s1.reselect && e !in s1.marked;
    assert Walk(cfg, env2, s1, [e]) == Step(cfg, env2, Walk(cfg, env2, s1, []), e);
    var s2 := Check(cfg, env2, s1);
    assert s2.batch == [e] && s2.elements == [e] && !s2.reselect && e !in s2.marked;
    assert Walk(cfg, env2, s2, [e]) == Step(cfg, env2, Walk(cfg, env2, s2, []), e);
    var o3 := CheckVisible(cfg, env2, s2, false);
    assert o3.handed == Some([e]) && e in o3.st.marked;
    var evs := [WindowEvent(env1), WindowEvent(env2), TimerFires(env2, false)];
    assert evs[1..] == [WindowEvent(env2), TimerFires(env2, false)];
    assert evs[1..][1..] == [TimerFires(env2, false)] && evs[1..][1..][1..] == [];
    assert Run(cfg, s2, evs[1..][1..]) == Trace(o3.st, [[e]]);
  }

  /** A callback that raises leaves its batch in place, already marked: the
      next timer with a poll that adds nothing hands the same elements over
      a second time. */
  lemma RaisingCallbackIsRepeated(cfg: Config, st: State, env1: Env, env2: Env)
    ensures var o1 := CheckVisible(cfg, env1, st, true);
      var o2 := CheckVisible(cfg, env2, o1.st, false);
      o1.handed.Some? ==> o2.handed.Some? && o1.handed.value <= o2.handed.value
  {
    var o1 := CheckVisible(cfg, env1, st, true);
    var s := o1.st;
    var s1 := if s.reselect then s.(elements := env2.resolve(cfg.selector), reselect := false) else s;
    WalkFrame(cfg, env2, s1, s1.elements);
  }

  /** The same element can be handed over twice in one call: a scroll after
      the dwell adds it to the batch without delivering, and the timer's own
      poll adds it again. */
  lemma OneCallCanRepeat(cfg: Config, env: Env, st: State, e: Elem)
    requires cfg.hasCallback && !st.reselect && st.elements == [e] && st.batch == []
    requires e !in st.marked && Visible(cfg, env, e) && Appeared(st, e)
    requires env.now - st.appeared[e] >= cfg.delay
    ensures Run(cfg, st, [WindowEvent(env), TimerFires(env, false)]).calls == [[e, e]]
  {
    assert [e][..0] == [];
    assert Walk(cfg, env, st, [e]) == Step(cfg, env, Walk(cfg, env, st, []), e);
    var s1 := Check(cfg, env, st);
    assert s1 == Step(cfg, env, st, e);
    assert s1.elements == [e] && !s1.reselect;
    assert Walk(cfg, env, s1, [e]) == Step(cfg, env, Walk(cfg, env, s1, []), e);
    var s2 := Check(cfg, env, s1);
    assert s2 == Step(cfg, env, s1, e);
    assert s2.batch == [e, e];
    var evs := [WindowEvent(env), TimerFires(env, false)];
    assert evs[1..] == [TimerFires(env, false)] && evs[1..][1..] == [];
    assert Apply(cfg, st, evs[0]) == Outcome(s1, None);
    var o2 := Apply(cfg, s1, TimerFires(env, false));
    assert o2.handed == Some([e, e]);
    assert Run(cfg, s1, evs[1..]).calls == [[e, e]] + Run(cfg, o2.st, []).calls;
  }
}

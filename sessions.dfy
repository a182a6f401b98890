/**
  The plugin's mutable objects: one `Session` per call of init (the plugin's
  per-call options object, which it updates in place on every poll), and the
  `Registry` of all sessions (the plugin's `allOptions`, together with the
  window events every session listens to).
 */
module Sessions {
  import opened Viewport
  import opened Tracking

  class Session {
    const delay: int
    const completelyVisible: bool
    const hasCallback: bool
    const selector: Selector

    var reselect: bool
    var elements: seq<Elem>
    var batch: seq<Elem>
    var appeared: map<Elem, int>
    var armed: set<Elem>
    var marked: set<Elem>

    function Cfg(): Config {
      Config(delay, completelyVisible, hasCallback, selector)
    }

    function View(): State
      reads this
    {
      State(reselect, elements, batch, appeared, armed, marked)
    }

    /** The set-up half of init: options fixed, no side data, empty batch,
        and the re-select flag off. */
    constructor (cfg: Config, initial: seq<Elem>)
      ensures Cfg() == cfg && View() == Initial(initial)
    {
      delay, completelyVisible, hasCallback, selector := cfg.delay, cfg.completelyVisible, cfg.hasCallback, cfg.selector;
      reselect := false;
      elements := initial;
      batch := [];
      appeared := map[];
      armed := {};
      marked := {};
    }

    /** checkElements: one poll of every tracked element. */
    method CheckElements(env: Env)
      modifies this
      ensures View() == Check(Cfg(), env, old(View()))
    {
      if reselect {
        elements := env.resolve(selector);
        reselect := false;
      }
      ghost var start := View();
      var i := 0;
      while i < |elements|
        invariant 0 <= i <= |elements|
        invariant elements == start.elements
        invariant View() == Walk(Cfg(), env, start, elements[..i])
      {
        var e := elements[i];
        assert elements[..i + 1][..i] == elements[..i];
        if e !in marked {
          if InViewport(env.rectOf(e), env.win, completelyVisible) {
            if !(e in appeared && appeared[e] != 0) {
              appeared := appeared[e := env.now];
              if e !in armed {
                armed := armed + {e};
              }
            } else if env.now - appeared[e] >= delay {
              armed := armed - {e};
              marked := marked - {e};
              batch := batch + [e];
            }
          } else {
            armed := armed - {e};
            appeared := appeared - {e};
          }
        }
        i := i + 1;
      }
      assert elements[..i] == elements;
    }

    /** checkVisibleElements, run when one of this session's timers fires:
        poll, then hand the batch to the callback. `raises` says whether the
        callback throws; if it does, the batch is not cleared. */
    method CheckVisibleElements(env: Env, raises: bool) returns (handed: Option<seq<Elem>>)
      modifies this
      ensures Outcome(View(), handed) == CheckVisible(Cfg(), env, old(View()), raises)
    {
      CheckElements(env);
      handed := None;
      if |batch| > 0 {
        if hasCallback {
          marked := marked + set x | x in batch;
          handed := Some(batch);
          if raises {
            return;
          }
        }
        batch := [];
      }
    }
  }

  class Registry {
    var sessions: seq<Session>

    /** Every session is registered once. */
    ghost predicate Valid()
      reads this
    {
      forall i, j :: 0 <= i < j < |sessions| ==> sessions[i] != sessions[j]
    }

    constructor ()
      ensures Valid() && sessions == []
    {
      sessions := [];
    }

    /** init: merge the options over the defaults, register the session, and
        poll it once, so that elements already visible start their dwell. */
    method Track(params: Params, selector: Selector, initial: seq<Elem>, env: Env) returns (s: Session)
      requires Valid()
      modifies this
      ensures Valid() && fresh(s)
      ensures sessions == old(sessions) + [s]
      ensures s.Cfg() == Merge(params, selector)
      ensures s.View() == Check(s.Cfg(), env, Initial(initial))
    {
      s := new Session(Merge(params, selector), initial);
      sessions := sessions + [s];
      s.CheckElements(env);
    }

    /** A window event (load, resize, scroll or the refresh trigger): every
        registered session polls, in the order of registration. */
    method Broadcast(env: Env)
      requires Valid()
      modifies set s | s in sessions
      ensures forall k :: 0 <= k < |sessions| ==>
        sessions[k].View() == Check(sessions[k].Cfg(), env, old(sessions[k].View()))
    {
      var i := 0;
      while i < |sessions|
        invariant 0 <= i <= |sessions|
        invariant forall k :: 0 <= k < i ==>
          sessions[k].View() == Check(sessions[k].Cfg(), env, old(sessions[k].View()))
        invariant forall k :: i <= k < |sessions| ==> sessions[k].View() == old(sessions[k].View())
      {
        sessions[i].CheckElements(env);
        i := i + 1;
      }
    }

    /** refresh: ask every session to re-resolve its elements, then fire the
        refresh trigger. */
    method Refresh(env: Env)
      requires Valid()
      modifies set s | s in sessions
      ensures forall k :: 0 <= k < |sessions| ==>
        sessions[k].View() == Check(sessions[k].Cfg(), env, old(sessions[k].View()).(reselect := true))
    {
      var i := 0;
      while i < |sessions|
        invariant 0 <= i <= |sessions|
        invariant forall k :: 0 <= k < i ==> sessions[k].View() == old(sessions[k].View()).(reselect := true)
        invariant forall k :: i <= k < |sessions| ==> sessions[k].View() == old(sessions[k].View())
      {
        sessions[i].reselect := true;
        i := i + 1;
      }
      Broadcast(env);
    }
  }
}

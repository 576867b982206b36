/** The three switches a supervisor holds over the mining threads. */
module Controls {
  datatype Settings = Settings(stop: bool, paused: bool, threads: nat)

  /** Whether the thread at `index` hashes. */
  predicate ShouldHash(s: Settings, index: nat) { !s.stop && !s.paused && index < s.threads }

  function AtLeastOne(threads: nat): nat { if threads < 1 then 1 else threads }

  datatype Action = Stop | SetPaused(paused: bool) | SetThreads(threads: nat)

  function After(s: Settings, a: Action): Settings
  {
    match a
    case Stop => s.(stop := true)
    case SetPaused(paused) => s.(paused := paused)
    case SetThreads(threads) => s.(threads := AtLeastOne(threads))
  }

  class Controls {
    var stop: bool
    var paused: bool
    var threads: nat

    constructor (threads: nat)
      ensures Current() == Settings(false, false, AtLeastOne(threads))
    {
      stop, paused, this.threads := false, false, AtLeastOne(threads);
    }

    function Current(): Settings
      reads this
    {
      Settings(stop, paused, threads)
    }

    method Apply(a: Action)
      modifies this
      ensures Current() == After(old(Current()), a)
    {
      match a
      case Stop => stop := true;
      case SetPaused(p) => paused := p;
      case SetThreads(n) => threads := AtLeastOne(n);
    }
  }

  function AfterAll(s: Settings, actions: seq<Action>): Settings
  {
    if actions == [] then s else After(AfterAll(s, actions[..|actions| - 1]), actions[|actions| - 1])
  }

  /** Whatever was done in whatever order: a stop is final, and otherwise a thread hashes exactly while the last pause setting is off and the last thread count reaches it, as it always does the first. */
  lemma {:induction false} StopIsFinal(threads: nat, actions: seq<Action>, index: nat)
    ensures var s := AfterAll(Settings(false, false, AtLeastOne(threads)), actions);
      && (Stop in actions ==> !ShouldHash(s, index))
      && (ShouldHash(s, index) <==> Stop !in actions && !LastPause(actions) && (index == 0 || index < LastThreads(threads, actions)))
  {
    SettingsAre(threads, actions);
  }

  predicate LastPause(actions: seq<Action>)
  {
    actions != []
    && var a := actions[|actions| - 1]; if a.SetPaused? then a.paused else LastPause(actions[..|actions| - 1])
  }

  /** The number of threads last asked for. */
  function LastThreads(threads: nat, actions: seq<Action>): nat
  {
    if actions == [] then threads
    else var a := actions[|actions| - 1]; if a.SetThreads? then a.threads else LastThreads(threads, actions[..|actions| - 1])
  }

  lemma {:induction false} SettingsAre(threads: nat, actions: seq<Action>)
    ensures var s := AfterAll(Settings(false, false, AtLeastOne(threads)), actions);
      && (s.stop <==> Stop in actions) && (s.paused <==> LastPause(actions))
      && s.threads >= 1 && (s.threads == LastThreads(threads, actions) || s.threads == 1 > LastThreads(threads, actions))
  {
    if actions != [] {
      var front, last := actions[..|actions| - 1], actions[|actions| - 1];
      SettingsAre(threads, front);
      assert actions == front + [last];
    }
  }
}

/** The other two jobs of packages/ui/src/bug-report-capture.ts: rolling buffers of
    log entries, and patching global functions while the hook is enabled. */
module BugReportHook {
  /** A bounded log; `pushConsoleEntry` and the `finally` of the patched fetch. */
  class RollingBuffer<T> {
    const limit: nat
    var entries: seq<T>

    constructor (limit: nat)
      ensures this.limit == limit && entries == []
    {
      this.limit := limit;
      entries := [];
    }

    method Push(entry: T)
      modifies this
      ensures entries == Pushed(old(entries), entry, limit)
    {
      entries := entries + [entry];
      if |entries| > limit { entries := entries[1..]; }
    }
  }

  function Pushed<T>(entries: seq<T>, entry: T, limit: nat): seq<T> {
    var more := entries + [entry];
    if |more| > limit then more[1..] else more
  }

  function PushedAll<T>(entries: seq<T>, added: seq<T>, limit: nat): seq<T>
    decreases |added|
  {
    if added == [] then entries else PushedAll(Pushed(entries, added[0], limit), added[1..], limit)
  }

  function Newest<T>(all: seq<T>, limit: nat): seq<T> {
    if |all| <= limit then all else all[|all| - limit..]
  }

  /** The buffer always holds the newest entries, in order: the oldest fall off. */
  lemma {:induction false} BufferHoldsNewest<T>(earlier: seq<T>, added: seq<T>, limit: nat)
    ensures PushedAll(Newest(earlier, limit), added, limit) == Newest(earlier + added, limit)
    decreases |added|
  {
    if added == [] { assert earlier + added == earlier; }
    else {
      assert Pushed(Newest(earlier, limit), added[0], limit) == Newest(earlier + [added[0]], limit);
      assert earlier + [added[0]] + added[1..] == earlier + added;
      BufferHoldsNewest(earlier + [added[0]], added[1..], limit);
    }
  }

  datatype Function = Native(id: nat) | Wrapper(inner: Function)

  /** `console.log`, `console.warn`, `console.error` and `window.fetch`. */
  datatype Globals = Globals(log: Function, warn: Function, error: Function, fetch: Function)

  function Wrapped(g: Globals): Globals {
    Globals(Wrapper(g.log), Wrapper(g.warn), Wrapper(g.error), Wrapper(g.fetch))
  }

  datatype Originals = NoOriginals | Kept(functions: Globals)

  datatype Patch = Patch(globals: Globals, originals: Originals, patched: bool)

  /** The function that the effect returns for React to call before it runs again. */
  function Cleanup(p: Patch): Patch {
    Patch(if p.originals.Kept? then p.originals.functions else p.globals, NoOriginals, false)
  }

  /** One run of the effect: the patch afterwards, and whether a cleanup was returned. */
  function Effect(p: Patch, enabled: bool): (Patch, bool) {
    if !enabled then
      (if p.originals.Kept? && p.patched then Patch(p.originals.functions, NoOriginals, false) else p, false)
    else if p.patched then (p, false)
    else (Patch(Wrapped(p.globals), Kept(p.globals), true), true)
  }

  /** The hook's refs and the globals it writes. */
  class PatchingHook {
    var console: Globals
    var originalsRef: Originals
    var patchedRef: bool
    var hasCleanup: bool

    ghost function View(): Lifecycle
      reads this
    {
      Lifecycle(Patch(console, originalsRef, patchedRef), hasCleanup)
    }

    constructor (g: Globals)
      ensures View() == Unmounted(g)
    {
      console, originalsRef, patchedRef, hasCleanup := g, NoOriginals, false, false;
    }

    /** React runs the cleanup it holds, then the effect. */
    method Run(enabled: bool)
      modifies this
      ensures View() == Next(old(View()), Rendered(enabled))
    {
      Teardown();
      if !enabled {
        if originalsRef.Kept? && patchedRef {
          console, patchedRef, originalsRef := originalsRef.functions, false, NoOriginals;
        }
        return;
      }
      if patchedRef { return; }
      patchedRef := true;
      originalsRef := Kept(console);
      console := Globals(Wrapper(console.log), Wrapper(console.warn), Wrapper(console.error), Wrapper(console.fetch));
      hasCleanup := true;
    }

    method Teardown()
      modifies this
      ensures View() == Next(old(View()), Removed)
    {
      if hasCleanup {
        if originalsRef.Kept? { console := originalsRef.functions; }
        patchedRef, originalsRef, hasCleanup := false, NoOriginals, false;
      }
    }
  }

  datatype Lifecycle = Lifecycle(patch: Patch, cleanup: bool)

  datatype Change = Rendered(enabled: bool) | Removed

  function Unmounted(g: Globals): Lifecycle {
    Lifecycle(Patch(g, NoOriginals, false), false)
  }

  function Next(s: Lifecycle, c: Change): Lifecycle {
    var cleaned := if s.cleanup then Cleanup(s.patch) else s.patch;
    match c
    case Removed => Lifecycle(cleaned, false)
    case Rendered(enabled) => var (p, cleanup) := Effect(cleaned, enabled); Lifecycle(p, cleanup)
  }

  function After(s: Lifecycle, changes: seq<Change>): Lifecycle {
    if changes == [] then s else Next(After(s, changes[..|changes| - 1]), changes[|changes| - 1])
  }

  /** Over any run of renders and unmounts the patch is symmetric: enabled, each
      global is wrapped exactly once; otherwise all four are exactly the originals. */
  lemma {:induction false} PatchIsSymmetric(g: Globals, changes: seq<Change>)
    ensures var on := changes != [] && changes[|changes| - 1] == Rendered(true);
            After(Unmounted(g), changes)
            == if on then Lifecycle(Patch(Wrapped(g), Kept(g), true), true) else Unmounted(g)
    ensures var on := changes != [] && changes[|changes| - 1] == Rendered(true);
            var now := After(Unmounted(g), changes).patch.globals;
            if on then
              && now.log == Wrapper(g.log) && now.warn == Wrapper(g.warn) && now.error == Wrapper(g.error)
              && now.fetch == Wrapper(g.fetch)
            else now == g
    decreases |changes|
  {
    if changes != [] { PatchIsSymmetric(g, changes[..|changes| - 1]); }
  }
}

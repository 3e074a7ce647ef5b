/**
 Runs of an open handle with cache checking: clock ticks, replacements of the
 file by renaming, and library calls, each of which begins with the reload check.
 */
module Reload {
  import opened Bytes
  import opened Trie
  import opened Structure
  import opened Handle

  datatype Event = Tick(seconds: nat) | Replace(version: FileVersion) | Remove | Call

  /** A version that a reload put into the handle, and when. */
  datatype Install = Install(version: FileVersion, time: int)

  /** The handle (None after a reload of a corrupt file), the file
      at its path, the clock, and what has happened so far. */
  datatype System = System(
    handle: Option<View>, disk: Option<FileVersion>, now: int,
    stats: seq<int>, installs: seq<Install>, history: seq<FileVersion>)

  /** The check calls `stat`. */
  predicate Stats(v: View, now: int) {
    v.flags.checkCache && now != v.lastMtimeCheck
  }

  /** The check goes on to install the file. */
  predicate Installs(s: System) {
    && s.handle.Some? && Stats(s.handle.value, s.now)
    && s.disk.Some? && ReloadDue(s.handle.value, s.disk.value, s.now)
  }

  /** One event; a call after a corrupt reload is not described, the run has ended. */
  function Step(s: System, e: Event): System {
    match e
    case Tick(n) => s.(now := s.now + n)
    case Replace(version) => s.(disk := Some(version), history := s.history + [version])
    case Remove => s.(disk := None)
    case Call =>
      if s.handle.None? then s
      else
        s.(handle := Checked(s.handle.value, s.disk, s.now),
           stats := if Stats(s.handle.value, s.now) then s.stats + [s.now] else s.stats,
           installs := if Installs(s) then s.installs + [Install(s.disk.value, s.now)] else s.installs)
  }

  function Run(s: System, events: seq<Event>): System {
    if events == [] then s else Step(Run(s, events[..|events| - 1]), events[|events| - 1])
  }

  /** The system as `GeoIP_open` leaves it. */
  function Opened(file: FileVersion, flags: Flags, now: int): System
    requires OpenCore(file, flags).Some?
  {
    System(Some(View(OpenCore(file, flags).value, flags, Iso88591, 0, 0, 1)), Some(file), now, [], [], [file])
  }

  /** The version that the handle was last opened or reloaded on. */
  function Current(s: System, file: FileVersion): FileVersion {
    if s.installs == [] then file else s.installs[|s.installs| - 1].version
  }

  /** What every step keeps. */
  ghost predicate Invariant(s: System, file: FileVersion, flags: Flags) {
    && (s.handle.Some? ==>
          && s.handle.value.flags == flags
          && OpenCore(Current(s, file), flags) == Some(s.handle.value.core)
          && s.handle.value.lastMtimeCheck <= s.now
          && (forall k | 0 <= k < |s.stats| :: s.stats[k] <= s.handle.value.lastMtimeCheck))
    && (forall j, k | 0 <= j < k < |s.stats| :: s.stats[j] < s.stats[k])
    && (forall k | 0 <= k < |s.installs| ::
          && s.installs[k].version in s.history
          && s.installs[k].version.mtime + 60 < s.installs[k].time
          && s.installs[k].time in s.stats)
    && s.history != [] && s.history[0] == file
    && (s.disk.Some? ==> s.disk.value in s.history)
    && |s.installs| + Pending(s) < |s.history|
  }

  /** A file waits to be noticed: it differs in modification time from the one in the handle. */
  function Pending(s: System): nat {
    if && s.handle.Some? && s.disk.Some? && s.handle.value.flags.checkCache
       && s.disk.value.mtime != s.handle.value.core.mtime
    then 1 else 0
  }

  lemma InvariantInitially(file: FileVersion, flags: Flags, now: int)
    requires OpenCore(file, flags).Some? && now >= 0
    ensures Invariant(Opened(file, flags, now), file, flags)
  {
  }

  lemma CallKeepsInvariant(s: System, file: FileVersion, flags: Flags)
    requires Invariant(s, file, flags)
    ensures Invariant(Step(s, Call), file, flags)
  {
    if s.handle.Some? {
      var s' := Step(s, Call);
      if Installs(s) {
        assert s'.installs[|s'.installs| - 1] == Install(s.disk.value, s.now);
        assert s'.stats[|s.stats|] == s.now;
      }
    }
  }

  lemma StepKeepsInvariant(s: System, e: Event, file: FileVersion, flags: Flags)
    requires Invariant(s, file, flags)
    ensures Invariant(Step(s, e), file, flags)
  {
    if e == Call {
      CallKeepsInvariant(s, file, flags);
    }
  }

  lemma {:induction false} RunKeepsInvariant(s: System, events: seq<Event>, file: FileVersion, flags: Flags)
    requires Invariant(s, file, flags)
    ensures Invariant(Run(s, events), file, flags)
  {
    if events != [] {
      RunKeepsInvariant(s, events[..|events| - 1], file, flags);
      StepKeepsInvariant(Run(s, events[..|events| - 1]), events[|events| - 1], file, flags);
    }
  }

  // ---------------------------------------------------------------- what holds after every run

  /** Between calls an intact handle is what opening one single version of the file afresh would give: its bytes,
      both caches, size, type, segments and record length all belong to the version of the last reload. */
  lemma EveryRunHoldsOneVersion(file: FileVersion, flags: Flags, now: int, events: seq<Event>)
    requires OpenCore(file, flags).Some? && now >= 0
    ensures var s := Run(Opened(file, flags, now), events); var version := Current(s, file);
            && version in s.history
            && (s.handle.Some? ==>
                  var core := s.handle.value.core;
                  && OpenCore(version, flags) == Some(core)
                  && core.database == version.content
                  && core.size == |version.content|
                  && core.cache == (if flags.memoryCache || flags.mmapCache then Some(version.content) else None)
                  && (if flags.indexCache then core.indexCache.Some? && core.indexCache.value <= version.content
                      else core.indexCache.None?)
                  && (flags.checkCache ==> core.mtime == version.mtime)
                  && var layout := Layout(core.databaseType, core.recordLength, core.databaseSegments);
                     LayoutOf(version.content) == Some(layout))
  {
    InvariantInitially(file, flags, now);
    RunKeepsInvariant(Opened(file, flags, now), events, file, flags);
    var s := Run(Opened(file, flags, now), events);
    if s.installs != [] {
      var last := |s.installs| - 1;
      assert s.installs[last].version in s.history;
    }
  }

  /** What belongs to the handle and not to its file survives every run from every
      state: flags, character set, Teredo support and the last netmask. */
  lemma {:induction false} EveryRunKeepsSettings(s: System, events: seq<Event>)
    ensures Run(s, events).handle.Some? ==>
              && s.handle.Some?
              && var (v, w) := (s.handle.value, Run(s, events).handle.value);
                 w.flags == v.flags && w.charset == v.charset && w.extFlags == v.extFlags && w.netmask == v.netmask
  {
    if events != [] {
      EveryRunKeepsSettings(s, events[..|events| - 1]);
    }
  }

  /** The versions that the events put at the path, in order. */
  function Replacements(events: seq<Event>): seq<FileVersion> {
    if events == [] then []
    else
      var rest := Replacements(events[..|events| - 1]);
      match events[|events| - 1]
      case Replace(version) => rest + [version]
      case _ => rest
  }

  lemma {:induction false} HistoryIsReplacements(s: System, events: seq<Event>)
    ensures Run(s, events).history == s.history + Replacements(events)
  {
    if events != [] {
      HistoryIsReplacements(s, events[..|events| - 1]);
    } else {
      assert s.history + [] == s.history;
    }
  }

  /** Every reload installs a version that was at the path and had been left alone
      for more than 60 seconds, in a second with a call of `stat`; no two calls of
      `stat` share a second; and there are never more reloads than replacements. */
  lemma EveryRunReloadsWithCare(file: FileVersion, flags: Flags, now: int, events: seq<Event>)
    requires OpenCore(file, flags).Some? && now >= 0
    ensures var s := Run(Opened(file, flags, now), events);
            && (forall j, k | 0 <= j < k < |s.stats| :: s.stats[j] < s.stats[k])
            && (forall k | 0 <= k < |s.installs| ::
                  && s.installs[k].version in [file] + Replacements(events)
                  && s.installs[k].version.mtime + 60 < s.installs[k].time
                  && s.installs[k].time in s.stats)
            && |s.installs| <= |Replacements(events)|
  {
    InvariantInitially(file, flags, now);
    RunKeepsInvariant(Opened(file, flags, now), events, file, flags);
    HistoryIsReplacements(Opened(file, flags, now), events);
  }

  /** After any run the walk over whichever bytes the handle reads, file, cache or index cache, gives the
      answers of the file version that the handle holds, exactly when its index cache can be used. */
  lemma EveryRunAnswersFromOneVersion(file: FileVersion, flags: Flags, now: int, events: seq<Event>, w: nat, num: nat)
    requires OpenCore(file, flags).Some? && now >= 0
    requires Run(Opened(file, flags, now), events).handle.Some?
    ensures var s := Run(Opened(file, flags, now), events);
            var core := s.handle.value.core;
            var content := Current(s, file).content;
            && LayoutOf(content).Some?
            && var ix := IndexOf(content, LayoutOf(content).value);
               Lookup(core.Index().(bytes := Source(core)), w, num) == Lookup(ix, w, num)
               <==> w == 0 || core.IndexCacheUsable()
  {
    EveryRunHoldsOneVersion(file, flags, now, events);
    SourcesAgree(Current(Run(Opened(file, flags, now), events), file), flags, w, num);
  }

  // ---------------------------------------------------------------- when a change is noticed

  predicate IsQuiet(e: Event) { e.Tick? || e.Call? }

  /** A replacement with the modification time of the version in the
      handle goes unnoticed for as long as nothing else happens. */
  lemma {:induction false} SameMtimeIsNeverNoticed(s: System, events: seq<Event>)
    requires s.handle.Some? && s.disk.Some? && s.disk.value.mtime == s.handle.value.core.mtime
    requires forall k | 0 <= k < |events| :: IsQuiet(events[k])
    ensures var s' := Run(s, events);
            && s'.handle.Some? && s'.handle.value.core == s.handle.value.core
            && s'.disk == s.disk && s'.installs == s.installs
  {
    if events != [] {
      var front := events[..|events| - 1];
      SameMtimeIsNeverNoticed(s, front);
      assert IsQuiet(events[|events| - 1]);
    }
  }

  /** Any other replacement is installed by the first call made late enough. */
  lemma OtherMtimeIsNoticed(s: System, n: nat)
    requires s.handle.Some? && s.disk.Some? && s.handle.value.flags.checkCache
    requires s.disk.value.mtime != s.handle.value.core.mtime
    requires s.disk.value.mtime + 60 < s.now + n && s.now + n != s.handle.value.lastMtimeCheck
    ensures var s' := Step(Step(s, Tick(n)), Call);
            && s'.installs == s.installs + [Install(s.disk.value, s.now + n)]
            && (s'.handle.Some? <==> OpenCore(s.disk.value, s.handle.value.flags).Some?)
            && (s'.handle.Some? ==> Some(s'.handle.value.core) == OpenCore(s.disk.value, s.handle.value.flags))
  {
  }

  /** So the file at the path gets installed by some later call exactly
      when its modification time differs and cache checking is on. */
  lemma NoticedIff(s: System)
    requires s.handle.Some? && s.disk.Some?
    ensures (exists n: nat :: Step(Step(s, Tick(n)), Call).installs != s.installs)
       <==> s.handle.value.flags.checkCache && s.disk.value.mtime != s.handle.value.core.mtime
  {
    var v := s.handle.value;
    if v.flags.checkCache && s.disk.value.mtime != v.core.mtime {
      var late := s.disk.value.mtime + 61 - s.now;
      var n: nat := if late < 0 then 0 else late;
      n := if s.now + n == v.lastMtimeCheck then n + 1 else n;
      OtherMtimeIsNoticed(s, n);
      assert Step(Step(s, Tick(n)), Call).installs != s.installs;
    }
  }
}

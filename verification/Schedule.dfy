/**
 What one `db-seed` run is allowed to do, decided from variables and a clock, and the dispatcher
 that does it: over whole histories of variable edits, clock ticks and runs.

 `instant` stands for the timestamp pattern followed by `Date.parse`: the moment a text names, in
 milliseconds, or nothing when the text is no full ISO timestamp with a zone.
 */
module Schedule {
  import opened Text
  import opened Backups

  const MAX_WINDOW_MS: int := 60 * 60_000

  /** The service's variables; `keep` is BACKUP_KEEP as `slice` reads it. */
  datatype Vars = Vars(operation: Option<string>, fallback: Option<string>, until: Option<string>,
                       allowDestructive: Option<string>, appEnv: Option<string>, railwayEnv: Option<string>, keep: int)

  function Setting(raw: Option<string>): string { if raw.None? then "" else Trim(raw.value) }

  // ---------------------------------------------------------------------------------------
  // Expiring authorisations

  datatype Window = NotSet | NotAnAuthorisation | UnreadableExpiry | Expired | TooFarAhead | Live(until: int)

  /** The rule both authorisations share. */
  function Expiry(text: string, now: int, instant: string -> Option<int>): Window {
    match instant(text)
    case None => UnreadableExpiry
    case Some(until) =>
      if until <= now then Expired else if until - now > MAX_WINDOW_MS then TooFarAhead else Live(until)
  }

  function WindowVerdict(raw: Option<string>, now: int, instant: string -> Option<int>): Window {
    if Setting(raw) == "" then NotSet else Expiry(Setting(raw), now, instant)
  }

  const PREFIX := "yes-until-"

  function DestructiveVerdict(raw: Option<string>, now: int, instant: string -> Option<int>): Window {
    var value := Setting(raw);
    if value == "" then NotSet
    else if !(PREFIX <= Lower(value)) then NotAnAuthorisation
    else Expiry(value[|PREFIX|..], now, instant)
  }

  /** A written authorisation is honoured exactly in the last hour before its moment. */
  lemma AuthorisationLastsExactly(stamp: string, at: int, now: int, instant: string -> Option<int>)
    requires stamp != "" && !IsSpace(stamp[|stamp| - 1]) && instant(stamp) == Some(at)
    ensures DestructiveVerdict(Some(PREFIX + stamp), now, instant) == Live(at) <==> at - MAX_WINDOW_MS <= now < at
  {
    var value := PREFIX + stamp;
    TrimKeeps(value);
    assert Lower(value)[..|PREFIX|] == PREFIX;
    assert value[|PREFIX|..] == stamp;
  }

  // ---------------------------------------------------------------------------------------
  // Which operation

  const KNOWN_OPERATIONS := [
    "status", "backups", "backup", "restore-drill", "india-gst", "india-gst-activate", "india-cinema",
    "payment-routes", "payment-providers", "review-catalogue", "backfill-objects", "full-reset"]
  const ALREADY_GUARDED := "full-reset"
  const DEFAULTABLE := ["status", "backup", "backups", "restore-drill"]
  const SAFE_DEFAULT := "status"

  datatype Source = Manual | Scheduled | SafeDefault

  datatype Verdict = Verdict(operation: string, source: Source, allowed: bool)

  function ResolveOperation(vars: Vars, now: int, instant: string -> Option<int>): Verdict {
    var requested := Lower(Setting(vars.operation));
    var fallback := Lower(Setting(vars.fallback));
    if requested != "" then
      if requested == ALREADY_GUARDED || requested !in KNOWN_OPERATIONS then Verdict(requested, Manual, true)
      else Verdict(requested, Manual, WindowVerdict(vars.until, now, instant).Live?)
    else if fallback in DEFAULTABLE then Verdict(fallback, Scheduled, true)
    else Verdict(SAFE_DEFAULT, SafeDefault, true)
  }

  // ---------------------------------------------------------------------------------------
  // Which environment

  const RESETTABLE := ["LOCAL", "DEV", "TEST", "CI", "QA", "UAT"]
  const NEVER := ["PRODUCTION", "PROD", "STAGING"]

  predicate ResetAllowedHere(vars: Vars) {
    var appEnv, railwayEnv := Upper(Setting(vars.appEnv)), Upper(Setting(vars.railwayEnv));
    if appEnv == "" then false
    else if appEnv in NEVER then false
    else if appEnv !in RESETTABLE then false
    else if railwayEnv != "" && railwayEnv in NEVER then false
    else true
  }

  /** The allowlist alone decides on APP_ENV; the platform's name can only refuse. */
  lemma ResetAllowedExactly(vars: Vars)
    ensures ResetAllowedHere(vars) <==>
              Upper(Setting(vars.appEnv)) in RESETTABLE && Upper(Setting(vars.railwayEnv)) !in NEVER
  {
  }

  // ---------------------------------------------------------------------------------------
  // One run

  /**
   What the world does to a run: how long it takes to each clock reading, how its dump ends, and whether
   the work it hands on (the seed after a reset, or any other operation) succeeds.
   */
  datatype Oracle = Oracle(toAuthorisation: nat, toDump: nat, toEnd: nat, name: string, taking: Taking,
                           stuck: set<string>, works: bool)

  datatype Outcome =
    | RunRefused | UnknownOperation | ResetRefused | ResetAborted | Emptied | BackupFailed
    | Performed | OperationFailed

  /**
   The record of a run: what it was given, what it decided and when, the dump it verified, and whether
   that dump was on the volume when the run went on.
   */
  datatype Entry = Entry(vars: Vars, verdict: Verdict, decidedAt: int, outcome: Outcome, dump: Option<File>,
                         dumpKept: bool)

  predicate Acted(e: Entry) { e.outcome !in {RunRefused, UnknownOperation, ResetRefused} }

  datatype System = System(vars: Vars, now: int, files: seq<File>, log: seq<Entry>)

  /** The dump and the prune after it, in a branch that takes a recovery point. */
  function FilesAfter(files: seq<File>, at: int, keep: int, o: Oracle): seq<File> {
    AfterNight(files, Night(o.name, at, o.taking, keep, o.stuck))
  }

  function DumpOf(at: int, o: Oracle): Option<File> {
    if o.taking.Verified? then Some(File(o.name, at, o.taking.bytes, true)) else None
  }

  predicate Kept(files: seq<File>, dump: Option<File>) { dump.Some? && dump.value in files }

  function RunEntry(s: System, o: Oracle, instant: string -> Option<int>): (Entry, seq<File>) {
    var v := ResolveOperation(s.vars, s.now, instant);
    var authAt := s.now + o.toAuthorisation;
    var dumpAt := authAt + o.toDump;
    var files := FilesAfter(s.files, dumpAt, s.vars.keep, o);
    var dump := DumpOf(dumpAt, o);
    if !v.allowed then (Entry(s.vars, v, s.now, RunRefused, None, false), s.files)
    else if v.operation !in KNOWN_OPERATIONS then (Entry(s.vars, v, s.now, UnknownOperation, None, false), s.files)
    else if v.operation == "backup" then
      (Entry(s.vars, v, s.now, if dump.Some? then Performed else BackupFailed, dump, Kept(files, dump)), files)
    else if v.operation == "full-reset" then
      if !ResetAllowedHere(s.vars) || !DestructiveVerdict(s.vars.allowDestructive, authAt, instant).Live?
      then (Entry(s.vars, v, authAt, ResetRefused, None, false), s.files)
      else (Entry(s.vars, v, authAt, if dump.Some? then Emptied else ResetAborted, dump, Kept(files, dump)), files)
    else (Entry(s.vars, v, s.now, if o.works then Performed else OperationFailed, None, false), s.files)
  }

  class Dispatcher {
    var volume: Volume
    var log: seq<Entry>
    var exitCode: nat

    constructor (v: Volume)
      ensures volume == v && log == []
    {
      volume, log, exitCode := v, [], 0;
    }

    /** A recovery point, and the prune after it only if it verified. */
    method TakeAndPrune(at: int, keep: int, o: Oracle) returns (dump: Option<File>)
      modifies volume
      ensures volume.files == FilesAfter(old(volume.files), at, keep, o)
      ensures dump == DumpOf(at, o)
    {
      hide Backups.AfterPrune;
      dump := volume.TakeBackup(o.name, at, o.taking);
      if dump.Some? {
        var removed := volume.Prune(keep, o.stuck);
      }
    }

    /** The switch, from the resolution to the exit. */
    method Run(vars: Vars, now: int, o: Oracle, instant: string -> Option<int>) returns (entry: Entry)
      modifies this, volume
      ensures volume == old(volume)
      ensures (entry, volume.files) == RunEntry(System(vars, now, old(volume.files), old(log)), o, instant)
      ensures log == old(log) + [entry]
      ensures exitCode == 0 <==> entry.outcome == Performed || (entry.outcome == Emptied && o.works)
      ensures exitCode <= 1
    {
      hide FilesAfter, DumpOf, ResolveOperation, DestructiveVerdict, ResetAllowedHere;
      var v := ResolveOperation(vars, now, instant);
      var dump: Option<File> := None;
      var outcome := Performed;
      var decidedAt := now;
      var authAt := now + o.toAuthorisation;
      exitCode := 1;
      if !v.allowed {
        outcome := RunRefused;
      } else if v.operation !in KNOWN_OPERATIONS {
        outcome := UnknownOperation;
      } else if v.operation == "backup" {
        dump := TakeAndPrune(authAt + o.toDump, vars.keep, o);
        if dump.Some? {
          exitCode := 0;
        } else {
          outcome := BackupFailed;
        }
      } else if v.operation == "full-reset" {
        decidedAt := authAt;
        if !ResetAllowedHere(vars) || !DestructiveVerdict(vars.allowDestructive, authAt, instant).Live? {
          outcome := ResetRefused;
        } else {
          dump := TakeAndPrune(authAt + o.toDump, vars.keep, o);
          if dump.Some? {
            outcome := Emptied;
            exitCode := if o.works then 0 else 1;
          } else {
            outcome := ResetAborted;
          }
        }
      } else if o.works {
        exitCode := 0;
      } else {
        outcome := OperationFailed;
      }
      entry := Entry(vars, v, decidedAt, outcome, dump, Kept(volume.files, dump));
      log := log + [entry];
    }
  }

  // ---------------------------------------------------------------------------------------
  // Histories

  datatype Event = Edit(vars: Vars) | Tick(ms: nat) | RunNow(oracle: Oracle)

  function Step(s: System, e: Event, instant: string -> Option<int>): System {
    match e
    case Edit(vars) => s.(vars := vars)
    case Tick(ms) => s.(now := s.now + ms)
    case RunNow(o) =>
      var (entry, files) := RunEntry(s, o, instant);
      s.(now := s.now + o.toAuthorisation + o.toDump + o.toEnd, files := files, log := s.log + [entry])
  }

  function History(start: System, events: seq<Event>, instant: string -> Option<int>): System {
    if events == [] then start else Step(History(start, events[..|events| - 1], instant), events[|events| - 1], instant)
  }

  /** What every entry of a history satisfies. */
  ghost predicate SoundEntry(e: Entry, instant: string -> Option<int>) {
    // tables are emptied only here, only with a live authorisation, only after a verified dump
    && (e.outcome == Emptied ==>
          && Lower(Setting(e.vars.operation)) == "full-reset"
          && Upper(Setting(e.vars.appEnv)) in RESETTABLE && Upper(Setting(e.vars.railwayEnv)) !in NEVER
          && LiveAt(DestructiveVerdict(e.vars.allowDestructive, e.decidedAt, instant), e.decidedAt)
          && e.dump.Some? && e.dump.value.readBack && e.dump.value.mtime >= e.decidedAt)
    // any other manual operation acts only inside its own window
    && (Acted(e) && e.verdict.source == Manual && e.verdict.operation != "full-reset" ==>
          LiveAt(WindowVerdict(e.vars.until, e.decidedAt, instant), e.decidedAt))
    && (Acted(e) && e.verdict.operation == "full-reset" ==>
          LiveAt(DestructiveVerdict(e.vars.allowDestructive, e.decidedAt, instant), e.decidedAt))
    // with no operation asked for, only an operation a schedule may select runs
    && (e.verdict.source != Manual ==>
          e.verdict.operation in DEFAULTABLE && e.outcome in {Performed, OperationFailed, BackupFailed})
    && (e.verdict.source == Manual <==> Setting(e.vars.operation) != "")
    && (e.verdict.source == Manual ==> e.verdict.operation == Lower(Setting(e.vars.operation)))
  }

  predicate LiveAt(w: Window, now: int) { w.Live? && now < w.until <= now + MAX_WINDOW_MS }

  lemma LiveMeansWithinTheHour(text: string, now: int, instant: string -> Option<int>)
    ensures Expiry(text, now, instant).Live? ==> LiveAt(Expiry(text, now, instant), now)
  {
  }

  lemma VerdictIsSound(vars: Vars, now: int, instant: string -> Option<int>)
    ensures var v := ResolveOperation(vars, now, instant);
            && (v.source == Manual <==> Setting(vars.operation) != "")
            && (v.source == Manual ==> v.operation == Lower(Setting(vars.operation)))
            && (v.source != Manual ==>
                  && v.allowed && v.operation in DEFAULTABLE
                  && v.operation in KNOWN_OPERATIONS && v.operation != "full-reset")
            && (v.source == Manual && v.allowed && v.operation in KNOWN_OPERATIONS && v.operation != "full-reset" ==>
                  LiveAt(WindowVerdict(vars.until, now, instant), now))
  {
    hide Trim, Lower, Expiry, Setting;
    LiveMeansWithinTheHour(Setting(vars.until), now, instant);
    assert DEFAULTABLE[0] == KNOWN_OPERATIONS[0] && DEFAULTABLE[1] == KNOWN_OPERATIONS[2];
    assert DEFAULTABLE[2] == KNOWN_OPERATIONS[1] && DEFAULTABLE[3] == KNOWN_OPERATIONS[3];
  }

  lemma DestructiveIsLive(raw: Option<string>, now: int, instant: string -> Option<int>)
    requires DestructiveVerdict(raw, now, instant).Live?
    ensures LiveAt(DestructiveVerdict(raw, now, instant), now)
  {
    hide Trim, Lower, Setting;
  }

  lemma EntryIsSound(s: System, o: Oracle, instant: string -> Option<int>)
    ensures SoundEntry(RunEntry(s, o, instant).0, instant)
  {
    hide Setting, Lower, Upper, FilesAfter, ResolveOperation, WindowVerdict, DestructiveVerdict, ResetAllowedHere;
    ResetAllowedExactly(s.vars);
    VerdictIsSound(s.vars, s.now, instant);
    var authAt := s.now + o.toAuthorisation;
    if DestructiveVerdict(s.vars.allowDestructive, authAt, instant).Live? {
      DestructiveIsLive(s.vars.allowDestructive, authAt, instant);
    }
  }

  /** Every run of every history is sound. */
  lemma {:induction false} EveryEntryIsSound(start: System, events: seq<Event>, instant: string -> Option<int>, i: nat)
    requires start.log == [] && i < |History(start, events, instant).log|
    ensures SoundEntry(History(start, events, instant).log[i], instant)
    decreases |events|
  {
    hide SoundEntry, RunEntry;
    var n := |events| - 1;
    var before := History(start, events[..n], instant);
    if i < |before.log| {
      EveryEntryIsSound(start, events[..n], instant, i);
    } else {
      EntryIsSound(before, events[n].oracle, instant);
    }
  }

  /** A live window names one moment, whenever it is asked about. */
  lemma WindowNamesOneMoment(raw: Option<string>, s: int, t: int, instant: string -> Option<int>)
    ensures LiveAt(WindowVerdict(raw, s, instant), s) && LiveAt(WindowVerdict(raw, t, instant), t) ==>
              WindowVerdict(raw, s, instant) == WindowVerdict(raw, t, instant)
    ensures LiveAt(DestructiveVerdict(raw, s, instant), s) && LiveAt(DestructiveVerdict(raw, t, instant), t) ==>
              DestructiveVerdict(raw, s, instant) == DestructiveVerdict(raw, t, instant)
  {
    hide Trim, Lower, Setting;
  }

  /**
   Left-over variables wear off: in any history, two runs that both act on a manual operation with the
   same three variables decide less than sixty minutes apart.
   */
  lemma ManualRunsAreWithinTheHour(start: System, events: seq<Event>, instant: string -> Option<int>, i: nat, j: nat)
    requires start.log == []
    requires var log := History(start, events, instant).log;
             && i < |log| && j < |log|
             && Acted(log[i]) && Acted(log[j]) && log[i].verdict.source == Manual && log[j].verdict.source == Manual
             && log[i].vars.operation == log[j].vars.operation && log[i].vars.until == log[j].vars.until
             && log[i].vars.allowDestructive == log[j].vars.allowDestructive
    ensures var log := History(start, events, instant).log;
            -MAX_WINDOW_MS < log[j].decidedAt - log[i].decidedAt < MAX_WINDOW_MS
  {
    hide Trim, Lower, Upper, Setting, WindowVerdict, DestructiveVerdict, History;
    var log := History(start, events, instant).log;
    var a, b := log[i], log[j];
    EveryEntryIsSound(start, events, instant, i);
    EveryEntryIsSound(start, events, instant, j);
    assert a.verdict.operation == b.verdict.operation;
    WindowNamesOneMoment(a.vars.until, a.decidedAt, b.decidedAt, instant);
    WindowNamesOneMoment(a.vars.allowDestructive, a.decidedAt, b.decidedAt, instant);
  }

  /** A dump name and time not used before, as the timestamp in the name makes it. */
  ghost predicate FreshDump(s: System, o: Oracle) {
    && UniqueNames(s.files) && IsDumpName(o.name)
    && (forall i :: 0 <= i < |s.files| ==> s.files[i].name != o.name)
    && OlderThan(s.files, s.now + o.toAuthorisation + o.toDump)
  }

  /**
   When tables are emptied, the dump verified in that very run is still on the volume exactly when
   BACKUP_KEEP keeps the newest file (or the file would not delete). A BACKUP_KEEP of zero, or one that
   is no number, prunes it before the tables are emptied.
   */
  lemma EmptiedWithRecoveryPointExactly(s: System, o: Oracle, instant: string -> Option<int>)
    requires FreshDump(s, o) && RunEntry(s, o, instant).0.outcome == Emptied
    ensures var entry := RunEntry(s, o, instant).0;
            entry.dumpKept <==>
              KeepsNewest(s.vars.keep, |ListBackups(s.files + [entry.dump.value])|) || o.name in o.stuck
  {
    hide ListBackups, Backups.AfterPrune, ResolveOperation, DestructiveVerdict, ResetAllowedHere, IsDumpName;
    var f := RunEntry(s, o, instant).0.dump.value;
    var all := s.files + [f];
    assert UniqueNames(all);
    FreshSurvivesExactly(s.files, f, s.vars.keep, o.stuck);
  }

  // ---------------------------------------------------------------------------------------
  // Recovery points over whole histories

  ghost predicate NotLater(files: seq<File>, now: int) { forall i :: 0 <= i < |files| ==> files[i].mtime <= now }

  /** Where a history may start: a directory of files, none from the future. */
  ghost predicate GoodStart(start: System) {
    UniqueNames(start.files) && NotLater(start.files, start.now) && start.log == []
  }

  /** A dump takes time, and its name, which holds the moment it began, was never used before. */
  ghost predicate FreshNames(start: System, events: seq<Event>) {
    forall j :: 0 <= j < |events| && events[j].RunNow? ==>
      && IsDumpName(events[j].oracle.name) && events[j].oracle.toDump >= 1
      && (forall i :: 0 <= i < |start.files| ==> start.files[i].name != events[j].oracle.name)
      && (forall i :: 0 <= i < j && events[i].RunNow? ==> events[i].oracle.name != events[j].oracle.name)
  }

  /** Whether a name was there at the start or was given by a run so far. */
  ghost predicate Used(start: System, events: seq<Event>, name: string) {
    || (exists i :: 0 <= i < |start.files| && start.files[i].name == name)
    || (exists j :: 0 <= j < |events| && events[j].RunNow? && events[j].oracle.name == name)
  }

  ghost predicate Tidy(s: System, start: System, events: seq<Event>) {
    && UniqueNames(s.files) && NotLater(s.files, s.now)
    && forall f :: f in s.files ==> Used(start, events, f.name)
  }

  /** A night adds at most its own dump. */
  lemma NightAdds(files: seq<File>, night: Night)
    requires UniqueNames(files) && forall i :: 0 <= i < |files| ==> files[i].name != night.name
    ensures UniqueNames(AfterNight(files, night))
    ensures forall f :: f in AfterNight(files, night) ==> f in files || (f.name == night.name && f.mtime == night.now)
  {
    hide AfterPrune;
    var taken := AfterTake(files, night.name, night.now, night.how);
    assert UniqueNames(taken);
    PruneIsWithout(taken, night.keep, night.stuck);
    forall f | f in AfterPrune(taken, night.keep, night.stuck) ensures f in taken {
      PruneKeepsOld(taken, night.keep, night.stuck, f);
    }
  }

  lemma PruneKeepsOld(files: seq<File>, keep: int, stuck: set<string>, f: File)
    requires f in AfterPrune(files, keep, stuck)
    ensures f in files
  {
    hide Backups.Doomed, Backups.Names;
    WithoutKeeps(files, Names(Doomed(files, keep, stuck)), f);
  }

  /** What a run leaves on the volume: what was there, or what a night at its dump time leaves. */
  lemma FilesOfRun(s: System, o: Oracle, instant: string -> Option<int>)
    ensures var files := RunEntry(s, o, instant).1;
            var dumpAt := s.now + o.toAuthorisation + o.toDump;
            || files == s.files
            || files == AfterNight(s.files, Night(o.name, dumpAt, o.taking, s.vars.keep, o.stuck))
  {
    hide AfterNight, ResolveOperation, DestructiveVerdict, ResetAllowedHere;
  }

  lemma UnusedName(s: System, start: System, events: seq<Event>, o: Oracle)
    requires Tidy(s, start, events) && FreshNames(start, events + [RunNow(o)])
    ensures forall i :: 0 <= i < |s.files| ==> s.files[i].name != o.name
  {
    var all := events + [RunNow(o)];
    var n := |events|;
    assert all[n].oracle == o;
    forall i | 0 <= i < |s.files| ensures s.files[i].name != o.name {
      assert s.files[i] in s.files;
      assert Used(start, events, s.files[i].name);
      assert forall j :: 0 <= j < n ==> all[j] == events[j];
    }
  }

  lemma RunIsTidy(s: System, start: System, events: seq<Event>, o: Oracle, instant: string -> Option<int>)
    requires Tidy(s, start, events) && FreshNames(start, events + [RunNow(o)])
    ensures Tidy(Step(s, RunNow(o), instant), start, events + [RunNow(o)])
  {
    hide AfterNight, RunEntry, FreshNames, IsDumpName;
    UnusedName(s, start, events, o);
    FilesOfRun(s, o, instant);
    NightAdds(s.files, Night(o.name, s.now + o.toAuthorisation + o.toDump, o.taking, s.vars.keep, o.stuck));
    var all := events + [RunNow(o)];
    var t := Step(s, RunNow(o), instant);
    assert all[|events|] == RunNow(o);
    UsedStays(start, events, RunNow(o));
    forall f | f in t.files ensures f.mtime <= t.now && Used(start, all, f.name) {
      if f in s.files { assert f.mtime <= s.now; }
    }
  }

  lemma UsedStays(start: System, events: seq<Event>, e: Event)
    ensures forall name :: Used(start, events, name) ==> Used(start, events + [e], name)
  {
    var all := events + [e];
    assert forall j :: 0 <= j < |events| ==> all[j] == events[j];
    forall name | Used(start, events, name) ensures Used(start, all, name) {
      if exists j :: 0 <= j < |events| && events[j].RunNow? && events[j].oracle.name == name {
        var j :| 0 <= j < |events| && events[j].RunNow? && events[j].oracle.name == name;
        assert all[j].RunNow? && all[j].oracle.name == name;
      }
    }
  }

  lemma {:induction false} HistoryIsTidy(start: System, events: seq<Event>, instant: string -> Option<int>)
    requires GoodStart(start) && FreshNames(start, events)
    ensures Tidy(History(start, events, instant), start, events)
    decreases |events|
  {
    hide Used, UniqueNames, RunEntry;
    if events == [] {
      StartIsTidy(start);
    } else {
      var n := |events| - 1;
      var e := events[n];
      assert events == events[..n] + [e];
      assert FreshNames(start, events[..n]) by { FewerAreFresh(start, events, n); }
      HistoryIsTidy(start, events[..n], instant);
      var s := History(start, events[..n], instant);
      if e.RunNow? {
        RunIsTidy(s, start, events[..n], e.oracle, instant);
      } else {
        UsedStays(start, events[..n], e);
      }
    }
  }

  lemma StartIsTidy(start: System)
    requires GoodStart(start)
    ensures Tidy(start, start, [])
  {
    forall f | f in start.files ensures Used(start, [], f.name) {
      var i :| 0 <= i < |start.files| && start.files[i] == f;
    }
  }

  lemma FewerAreFresh(start: System, events: seq<Event>, n: nat)
    requires FreshNames(start, events) && n <= |events|
    ensures FreshNames(start, events[..n])
  {
    hide IsDumpName;
    assert forall j :: 0 <= j < n ==> events[..n][j] == events[j];
  }

  /** At every run of a history the dump's name and time are new. */
  lemma DumpIsFresh(start: System, events: seq<Event>, instant: string -> Option<int>, j: nat)
    requires GoodStart(start) && FreshNames(start, events) && j < |events| && events[j].RunNow?
    ensures FreshDump(History(start, events[..j], instant), events[j].oracle)
  {
    hide IsDumpName, UniqueNames, Used, History;
    var s, o := History(start, events[..j], instant), events[j].oracle;
    assert events[..j + 1] == events[..j] + [RunNow(o)];
    FewerAreFresh(start, events, j);
    FewerAreFresh(start, events, j + 1);
    HistoryIsTidy(start, events[..j], instant);
    UnusedName(s, start, events[..j], o);
  }

  /** If the run emptied the tables, its dump is kept exactly when BACKUP_KEEP keeps the newest, or it is stuck. */
  ghost predicate DumpKeptExactly(s: System, o: Oracle, entry: Entry) {
    entry.outcome == Emptied ==>
      && entry.dump.Some?
      && (entry.dumpKept <==>
            KeepsNewest(s.vars.keep, |ListBackups(s.files + [entry.dump.value])|) || o.name in o.stuck)
  }

  lemma RunKeepsExactly(s: System, o: Oracle, instant: string -> Option<int>)
    requires FreshDump(s, o)
    ensures DumpKeptExactly(s, o, RunEntry(s, o, instant).0)
  {
    hide RunEntry, FreshDump, SoundEntry, KeepsNewest, ListBackups;
    if RunEntry(s, o, instant).0.outcome == Emptied {
      EmptiedHasDump(s, o, instant);
      EmptiedWithRecoveryPointExactly(s, o, instant);
    }
  }

  lemma EmptiedHasDump(s: System, o: Oracle, instant: string -> Option<int>)
    requires RunEntry(s, o, instant).0.outcome == Emptied
    ensures RunEntry(s, o, instant).0.dump.Some?
  {
    hide RunEntry;
    EntryIsSound(s, o, instant);
  }

  /**
   Over every history: each run is on the log, its dump was new on the volume, and when it emptied the
   tables its recovery point is still there exactly when BACKUP_KEEP keeps the newest file or the dump
   would not delete.
   */
  lemma EveryEmptyingKeepsItsDumpExactly(start: System, events: seq<Event>, instant: string -> Option<int>, j: nat)
    requires GoodStart(start) && FreshNames(start, events) && j < |events| && events[j].RunNow?
    ensures var s, o := History(start, events[..j], instant), events[j].oracle;
            var entry := RunEntry(s, o, instant).0;
            && History(start, events[..j + 1], instant).log == s.log + [entry]
            && FreshDump(s, o) && DumpKeptExactly(s, o, entry)
  {
    hide RunEntry, FreshDump, FreshNames, GoodStart, DumpKeptExactly;
    assert events[..j + 1][..j] == events[..j];
    DumpIsFresh(start, events, instant, j);
    RunKeepsExactly(History(start, events[..j], instant), events[j].oracle, instant);
  }

  // ---------------------------------------------------------------------------------------
  // Every run does what its variables ask, exactly

  /** Variables are read without the spaces around them, and one that is not set as empty. */
  lemma SettingIsTrimmed(u: string, t: string, v: string)
    requires AllSpaces(u) && AllSpaces(v) && IsTidy(t)
    ensures Setting(Some(u + t + v)) == t && Setting(None) == ""
  {
    hide Trim;
    TrimStrips(u, t, v);
  }

  /** A moment within the hour after `now`. */
  predicate WithinTheHour(moment: Option<int>, now: int) {
    moment.Some? && now < moment.value <= now + 60 * 60 * 1000
  }

  /** What a backup leaves: the outcome and the volume of that night. */
  predicate BackedUp(s: System, o: Oracle, e: Entry, files: seq<File>) {
    var at := s.now + o.toAuthorisation + o.toDump;
    && e.outcome == (if o.taking.Verified? then Performed else BackupFailed)
    && (e.dump.Some? <==> o.taking.Verified?)
    && (e.dump.Some? ==> e.dump.value == File(o.name, at, o.taking.bytes, true))
    && files == AfterNight(s.files, Night(o.name, at, o.taking, s.vars.keep, o.stuck))
  }

  /** An operation of another kind: it takes no dump and leaves the volume alone. */
  predicate HandedOn(s: System, o: Oracle, e: Entry, files: seq<File>) {
    e.outcome == (if o.works then Performed else OperationFailed) && e.dump.None? && files == s.files
  }

  predicate NothingDone(s: System, e: Entry, files: seq<File>, outcome: Outcome) {
    e.outcome == outcome && e.dump.None? && files == s.files
  }

  /** With no operation asked for, the fallback runs if a schedule may select it, else the census. */
  predicate ScheduledAsAsked(s: System, o: Oracle, e: Entry, files: seq<File>) {
    Setting(s.vars.operation) == "" ==>
      var f := Lower(Setting(s.vars.fallback));
      && e.verdict == (if f in {"status", "backup", "backups", "restore-drill"} then Verdict(f, Scheduled, true)
                       else Verdict("status", SafeDefault, true))
      && (if f == "backup" then BackedUp(s, o, e, files) else HandedOn(s, o, e, files))
  }

  /** A known operation asked for runs exactly inside the hour before SEED_OPERATION_UNTIL. */
  predicate ManualAsAuthorised(s: System, o: Oracle, e: Entry, files: seq<File>, instant: string -> Option<int>) {
    var asked, until := Lower(Setting(s.vars.operation)), Setting(s.vars.until);
    asked in {"status", "backups", "backup", "restore-drill", "india-gst", "india-gst-activate", "india-cinema",
              "payment-routes", "payment-providers", "review-catalogue", "backfill-objects"} ==>
      && e.verdict.operation == asked && e.verdict.source == Manual
      && (e.verdict.allowed <==> until != "" && WithinTheHour(instant(until), s.now))
      && (if !e.verdict.allowed then NothingDone(s, e, files, RunRefused)
          else if asked == "backup" then BackedUp(s, o, e, files)
          else HandedOn(s, o, e, files))
  }

  /**
   A reset empties the tables exactly when the environment is one of six, the platform names none of three,
   the authorisation names a moment within the hour, and the dump taken then verified.
   */
  predicate ResetAsAuthorised(s: System, o: Oracle, e: Entry, files: seq<File>, instant: string -> Option<int>) {
    var allow, at := Setting(s.vars.allowDestructive), s.now + o.toAuthorisation;
    Lower(Setting(s.vars.operation)) == "full-reset" ==>
      var granted :=
        && Upper(Setting(s.vars.appEnv)) in {"LOCAL", "DEV", "TEST", "CI", "QA", "UAT"}
        && Upper(Setting(s.vars.railwayEnv)) !in {"PRODUCTION", "PROD", "STAGING"}
        && |allow| >= 10 && Lower(allow)[..10] == "yes-until-" && WithinTheHour(instant(allow[10..]), at);
      if !granted then NothingDone(s, e, files, ResetRefused)
      else
        && e.outcome == (if o.taking.Verified? then Emptied else ResetAborted)
        && BackedUp(s, o, e.(outcome := if o.taking.Verified? then Performed else BackupFailed), files)
  }

  /** Anything else asked for is unknown and does nothing. */
  predicate UnknownDoesNothing(s: System, e: Entry, files: seq<File>) {
    var asked := Lower(Setting(s.vars.operation));
    asked != "" && asked !in KNOWN_OPERATIONS ==> NothingDone(s, e, files, UnknownOperation)
  }

  lemma LowerIsEmpty(s: string)
    ensures Lower(s) == "" <==> s == ""
  {
  }

  /** The operations, written out. */
  lemma KnownOperations(op: string)
    ensures op in KNOWN_OPERATIONS <==>
              op in {"status", "backups", "backup", "restore-drill", "india-gst", "india-gst-activate", "india-cinema",
                     "payment-routes", "payment-providers", "review-catalogue", "backfill-objects", "full-reset"}
    ensures op in DEFAULTABLE <==> op in {"status", "backup", "backups", "restore-drill"}
  {
    assert KNOWN_OPERATIONS[0] == "status" && KNOWN_OPERATIONS[1] == "backups" && KNOWN_OPERATIONS[2] == "backup"
      && KNOWN_OPERATIONS[3] == "restore-drill" && KNOWN_OPERATIONS[4] == "india-gst"
      && KNOWN_OPERATIONS[5] == "india-gst-activate" && KNOWN_OPERATIONS[6] == "india-cinema"
      && KNOWN_OPERATIONS[7] == "payment-routes" && KNOWN_OPERATIONS[8] == "payment-providers"
      && KNOWN_OPERATIONS[9] == "review-catalogue" && KNOWN_OPERATIONS[10] == "backfill-objects"
      && KNOWN_OPERATIONS[11] == "full-reset";
    assert DEFAULTABLE[0] == "status" && DEFAULTABLE[1] == "backup" && DEFAULTABLE[2] == "backups"
      && DEFAULTABLE[3] == "restore-drill";
  }

  /** A window is live exactly within the hour before the moment it names. */
  lemma WindowExactly(raw: Option<string>, now: int, instant: string -> Option<int>)
    ensures WindowVerdict(raw, now, instant).Live? <==>
              Setting(raw) != "" && WithinTheHour(instant(Setting(raw)), now)
  {
    hide Setting;
  }

  /** So is an authorisation, after its prefix. */
  lemma DestructiveExactly(raw: Option<string>, now: int, instant: string -> Option<int>)
    ensures var allow := Setting(raw);
            DestructiveVerdict(raw, now, instant).Live? <==>
              |allow| >= 10 && Lower(allow)[..10] == "yes-until-" && WithinTheHour(instant(allow[10..]), now)
  {
    hide Setting, Lower;
  }

  /** The environments, written out. */
  lemma EnvironmentExactly(vars: Vars)
    ensures ResetAllowedHere(vars) <==>
              && Upper(Setting(vars.appEnv)) in {"LOCAL", "DEV", "TEST", "CI", "QA", "UAT"}
              && Upper(Setting(vars.railwayEnv)) !in {"PRODUCTION", "PROD", "STAGING"}
  {
    hide Setting, Upper;
    ResetAllowedExactly(vars);
    assert RESETTABLE[0] == "LOCAL" && RESETTABLE[1] == "DEV" && RESETTABLE[2] == "TEST" && RESETTABLE[3] == "CI"
      && RESETTABLE[4] == "QA" && RESETTABLE[5] == "UAT";
    assert NEVER[0] == "PRODUCTION" && NEVER[1] == "PROD" && NEVER[2] == "STAGING";
  }

  lemma ScheduledRun(s: System, o: Oracle, instant: string -> Option<int>)
    ensures var (e, files) := RunEntry(s, o, instant); ScheduledAsAsked(s, o, e, files)
  {
    hide Setting, Lower, Upper, WindowVerdict, DestructiveVerdict, ResetAllowedHere, Kept, AfterNight;
    LowerIsEmpty(Setting(s.vars.operation));
    KnownOperations(Lower(Setting(s.vars.fallback)));
    KnownOperations("status");
  }

  lemma ManualRun(s: System, o: Oracle, instant: string -> Option<int>)
    ensures var (e, files) := RunEntry(s, o, instant); ManualAsAuthorised(s, o, e, files, instant)
  {
    hide Setting, Lower, Upper, WindowVerdict, DestructiveVerdict, ResetAllowedHere, Kept, AfterNight, WithinTheHour;
    KnownOperations(Lower(Setting(s.vars.operation)));
    WindowExactly(s.vars.until, s.now, instant);
  }

  lemma ResetRun(s: System, o: Oracle, instant: string -> Option<int>)
    ensures var (e, files) := RunEntry(s, o, instant); ResetAsAuthorised(s, o, e, files, instant)
  {
    hide Setting, Lower, Upper, WindowVerdict, DestructiveVerdict, ResetAllowedHere, Kept, AfterNight, WithinTheHour;
    KnownOperations(Lower(Setting(s.vars.operation)));
    EnvironmentExactly(s.vars);
    DestructiveExactly(s.vars.allowDestructive, s.now + o.toAuthorisation, instant);
  }

  lemma UnknownRun(s: System, o: Oracle, instant: string -> Option<int>)
    ensures var (e, files) := RunEntry(s, o, instant); UnknownDoesNothing(s, e, files)
  {
    hide Setting, Lower, Upper, WindowVerdict, DestructiveVerdict, ResetAllowedHere, Kept, AfterNight;
  }

  /** Over every history: each run is logged with what it did, and it did exactly what its variables ask. */
  lemma EveryRunIsAsAsked(start: System, events: seq<Event>, instant: string -> Option<int>, j: nat)
    requires j < |events| && events[j].RunNow?
    ensures var s, t := History(start, events[..j], instant), History(start, events[..j + 1], instant);
            var o := events[j].oracle;
            && |t.log| == |s.log| + 1 && t.log[..|s.log|] == s.log
            && var e := t.log[|s.log|];
               && e.vars == s.vars
               && ScheduledAsAsked(s, o, e, t.files) && ManualAsAuthorised(s, o, e, t.files, instant)
               && ResetAsAuthorised(s, o, e, t.files, instant) && UnknownDoesNothing(s, e, t.files)
  {
    hide RunEntry, ScheduledAsAsked, ManualAsAuthorised, ResetAsAuthorised, UnknownDoesNothing;
    assert events[..j + 1][..j] == events[..j];
    var s, o := History(start, events[..j], instant), events[j].oracle;
    ScheduledRun(s, o, instant);
    ManualRun(s, o, instant);
    ResetRun(s, o, instant);
    UnknownRun(s, o, instant);
    EntryHasVars(s, o, instant);
  }

  lemma EntryHasVars(s: System, o: Oracle, instant: string -> Option<int>)
    ensures RunEntry(s, o, instant).0.vars == s.vars
  {
    hide FilesAfter, DumpOf, ResolveOperation, DestructiveVerdict, ResetAllowedHere, Kept;
  }
}
